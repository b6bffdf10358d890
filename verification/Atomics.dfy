/** Atomics from a 32-bit compare-exchange loop, run by any number of interleaved
    threads over one memory of words, refine single-step operations on bytes. */
module Atomics {
  import opened Bits

  // ----- lanes of a word -----

  /** A byte, a half-word or the whole of a word: `byte` is the low two address bits. */
  datatype Lane = Lane(byte: nat, size: nat)

  predicate LaneOk(l: Lane) {
    (l.size == 1 && l.byte < 4) || (l.size == 2 && (l.byte == 0 || l.byte == 2)) || l == FULL
  }

  const FULL := Lane(0, 4)

  function LowMask(l: Lane): bv32 { if l.size == 1 then 0xFF else if l.size == 2 then 0xFFFF else 0xFFFF_FFFF }

  /** Truncated to the lane's width. */
  function Cut(x: bv32, l: Lane): bv32 { x & LowMask(l) }

  function Shr(w: bv32, byte: nat): bv32
    requires byte < 4
  {
    if byte == 0 then w else if byte == 1 then w >> 8 else if byte == 2 then w >> 16 else w >> 24
  }

  function Shl(w: bv32, byte: nat): bv32
    requires byte < 4
  {
    if byte == 0 then w else if byte == 1 then w << 8 else if byte == 2 then w << 16 else w << 24
  }

  /** Shift down and truncate. */
  function Extract(w: bv32, l: Lane): bv32
    requires LaneOk(l)
  {
    Shr(w, l.byte) & LowMask(l)
  }

  /** Clear the lane and insert the shifted value. */
  function Replace(w: bv32, l: Lane, value: bv32): bv32
    requires LaneOk(l)
  {
    var mask := Shl(LowMask(l), l.byte);
    (w & !mask) | (Shl(value, l.byte) & mask)
  }

  function ByteOf(w: bv32, k: nat): bv32
    requires k < 4
  {
    Shr(w, k) & 0xFF
  }

  predicate Covers(l: Lane, k: nat) { l.byte <= k < l.byte + l.size }

  predicate SizeOk(size: nat) { size == 1 || size == 2 || size == 4 }

  /** The little-endian value of one, two or four bytes. */
  function Join(lane: seq<bv32>): bv32
    requires SizeOk(|lane|)
  {
    if |lane| == 1 then lane[0]
    else if |lane| == 2 then lane[0] | (lane[1] << 8)
    else lane[0] | (lane[1] << 8) | ((lane[2] << 16) | (lane[3] << 24))
  }

  function LaneBytes(w: bv32, l: Lane): (lane: seq<bv32>)
    requires LaneOk(l)
    ensures |lane| == l.size
  {
    seq(l.size, k requires 0 <= k < l.size => ByteOf(w, l.byte + k))
  }

  /** A lane is the little-endian value of its bytes. */
  lemma ExtractIsBytes(w: bv32, l: Lane)
    requires LaneOk(l)
    ensures Extract(w, l) == Join(LaneBytes(w, l))
  {
    if l.size == 1 {
      assert LaneBytes(w, l) == [ByteOf(w, l.byte)];
    } else if l.size == 2 {
      ExtractHalf(w, l.byte);
    } else {
      ExtractFull(w);
    }
  }

  lemma ExtractHalf(w: bv32, byte: nat)
    requires byte == 0 || byte == 2
    ensures Extract(w, Lane(byte, 2)) == ByteOf(w, byte) | (ByteOf(w, byte + 1) << 8)
  {
  }

  lemma ExtractFull(w: bv32)
    ensures Extract(w, FULL) == w == ByteOf(w, 0) | (ByteOf(w, 1) << 8) | ((ByteOf(w, 2) << 16) | (ByteOf(w, 3) << 24))
  {
  }

  lemma ReplaceFull(w: bv32, v: bv32)
    ensures Replace(w, FULL, v) == v
  {
  }

  lemma ReplaceByte0(w: bv32, v: bv32, k: nat)
    requires k < 4
    ensures ByteOf(Replace(w, Lane(0, 1), v), k) == if k == 0 then v & 0xFF else ByteOf(w, k)
  {
  }

  lemma ReplaceByte1(w: bv32, v: bv32, k: nat)
    requires k < 4
    ensures ByteOf(Replace(w, Lane(1, 1), v), k) == if k == 1 then v & 0xFF else ByteOf(w, k)
  {
  }

  lemma ReplaceByte2(w: bv32, v: bv32, k: nat)
    requires k < 4
    ensures ByteOf(Replace(w, Lane(2, 1), v), k) == if k == 2 then v & 0xFF else ByteOf(w, k)
  {
  }

  lemma ReplaceByte3(w: bv32, v: bv32, k: nat)
    requires k < 4
    ensures ByteOf(Replace(w, Lane(3, 1), v), k) == if k == 3 then v & 0xFF else ByteOf(w, k)
  {
  }

  lemma ReplaceHalf0(w: bv32, v: bv32, k: nat)
    requires k < 4
    ensures ByteOf(Replace(w, Lane(0, 2), v), k)
            == if k == 0 then v & 0xFF else if k == 1 then (v >> 8) & 0xFF else ByteOf(w, k)
  {
  }

  lemma ReplaceHalf2(w: bv32, v: bv32, k: nat)
    requires k < 4
    ensures ByteOf(Replace(w, Lane(2, 2), v), k)
            == if k == 2 then v & 0xFF else if k == 3 then (v >> 8) & 0xFF else ByteOf(w, k)
  {
  }

  lemma LowBytes(v: bv32)
    ensures ByteOf(v, 0) == v & 0xFF && ByteOf(v, 1) == (v >> 8) & 0xFF
  {
  }

  /** Replacing writes the lane's bytes and no other. */
  lemma ReplaceIsBytes(w: bv32, l: Lane, value: bv32, k: nat)
    requires LaneOk(l) && k < 4
    ensures ByteOf(Replace(w, l, value), k) == if Covers(l, k) then ByteOf(value, k - l.byte) else ByteOf(w, k)
  {
    hide ByteOf, Replace;
    LowBytes(value);
    if l == FULL { ReplaceFull(w, value); }
    else if l.size == 2 {
      if l.byte == 0 { ReplaceHalf0(w, value, k); } else { ReplaceHalf2(w, value, k); }
    } else if l.byte == 0 { ReplaceByte0(w, value, k); }
    else if l.byte == 1 { ReplaceByte1(w, value, k); }
    else if l.byte == 2 { ReplaceByte2(w, value, k); }
    else { ReplaceByte3(w, value, k); }
  }

  /** For addresses of `n` bits, `address & 3` and `address & -4` are the lane's byte and the word's address. */
  lemma WordOfAddress(address: nat, n: nat)
    requires n >= 2 && address < Pow2(n)
    ensures And(address, Pow2(2) - Pow2(0)) == address % Pow2(2)
    ensures Pow2(2) <= Pow2(n) && And(address, Pow2(n) - Pow2(2)) == address - address % Pow2(2)
    ensures (address - address % Pow2(2)) % Pow2(2) == 0
  {
    AndMask(address, 0, 2);
    AndMask(address, 2, n);
    MaskedIsAligned(address, 2, n);
    DivUnique(address, Pow2(n), 0, address);
    hide Pow2, And;
    assert address % Pow2(0) == 0 by { assert Pow2(0) == 1 by { PowZero(); } }
  }

  lemma PowZero()
    ensures Pow2(0) == 1
  {
  }

  // ----- operations -----

  datatype Kind = Add | Sub | BitAnd | Nand | BitOr | BitXor | Xchg

  function Combined(k: Kind, old_: bv32, operand: bv32): bv32 {
    match k
    case Add => old_ + operand
    case Sub => old_ - operand
    case BitAnd => old_ & operand
    case Nand => !(old_ & operand)
    case BitOr => old_ | operand
    case BitXor => old_ ^ operand
    case Xchg => operand
  }

  /** The operation in the lane's width; operands are zero-extended. */
  function Applied(k: Kind, l: Lane, old_: bv32, operand: bv32): bv32 { Cut(Combined(k, old_, operand), l) }

  datatype Op = Rmw(kind: Kind, operand: bv32) | CmpXchg(expected: bv32, desired: bv32)

  /** What one indivisible operation does to a lane holding `v`: new value, returned value, success. */
  function Effect(op: Op, l: Lane, v: bv32): (bv32, bv32, bool) {
    match op
    case Rmw(k, operand) => (Applied(k, l, v, operand), v, true)
    case CmpXchg(expected, desired) =>
      if v == Cut(expected, l) then (Cut(desired, l), v, true) else (v, v, false)
  }

  // ----- the emitted code, one memory access per step -----

  datatype Job = Job(op: Op, word: nat, lane: Lane)

  datatype Thread =
    | Ready(job: Job)
    | Looping(job: Job, current: bv32)
    | Done(job: Job, old_: bv32, success: bool)

  datatype State = State(mem: seq<bv32>, threads: seq<Thread>)

  ghost predicate StateOk(s: State) {
    forall i :: 0 <= i < |s.threads| ==> s.threads[i].job.word < |s.mem| && LaneOk(s.threads[i].job.lane)
  }

  function Desired(j: Job, current: bv32): bv32
    requires LaneOk(j.lane)
  {
    match j.op
    case Rmw(k, operand) => Replace(current, j.lane, Applied(k, j.lane, Extract(current, j.lane), operand))
    case CmpXchg(_, desired) => Replace(current, j.lane, Cut(desired, j.lane))
  }

  /** The comparison a compare-exchange makes before it tries. */
  predicate Mismatch(j: Job, current: bv32)
    requires LaneOk(j.lane)
  {
    j.op.CmpXchg? && Extract(current, j.lane) != Cut(j.op.expected, j.lane)
  }

  /** One step of a thread: the first load, a local exit, or one word compare-exchange. */
  function Step(mem: seq<bv32>, t: Thread): (seq<bv32>, Thread)
    requires t.job.word < |mem| && LaneOk(t.job.lane)
  {
    var j := t.job;
    match t
    case Ready(_) => (mem, Looping(j, mem[j.word]))
    case Looping(_, current) =>
      if Mismatch(j, current) then (mem, Done(j, Extract(current, j.lane), false))
      else if mem[j.word] == current then (mem[j.word := Desired(j, current)], Done(j, Extract(current, j.lane), true))
      else (mem, Looping(j, mem[j.word]))
    case Done(_, _, _) => (mem, t)
  }

  /** Who moves: a thread, or other code storing a whole word. */
  datatype Move = Run(i: nat) | Store(word: nat, value: bv32)

  ghost predicate Next(s: State, m: Move, t: State)
    requires StateOk(s)
  {
    match m
    case Run(i) =>
      && i < |s.threads|
      && t == State(Step(s.mem, s.threads[i]).0, s.threads[i := Step(s.mem, s.threads[i]).1])
    case Store(w, v) => w < |s.mem| && t == State(s.mem[w := v], s.threads)
  }

  // ----- the specification: bytes, and operations that happen in one step -----

  datatype Caller = Waiting(job: Job) | Returned(job: Job, old_: bv32, success: bool)

  datatype Spec = Spec(bytes: seq<bv32>, callers: seq<Caller>)

  function Bytes(mem: seq<bv32>): (bytes: seq<bv32>)
    ensures |bytes| == 4 * |mem|
  {
    seq(4 * |mem|, a requires 0 <= a < 4 * |mem| => ByteOf(mem[a / 4], a % 4))
  }

  /** A compare-exchange that has seen a different value has already failed. */
  function Abstract(t: Thread): Caller
    requires LaneOk(t.job.lane)
  {
    match t
    case Ready(j) => Waiting(j)
    case Looping(j, current) =>
      if Mismatch(j, current) then Returned(j, Extract(current, j.lane), false) else Waiting(j)
    case Done(j, o, ok) => Returned(j, o, ok)
  }

  ghost function View(s: State): Spec
    requires StateOk(s)
  {
    Spec(Bytes(s.mem), seq(|s.threads|, i requires 0 <= i < |s.threads| => Abstract(s.threads[i])))
  }

  function LaneAt(bytes: seq<bv32>, word: nat, l: Lane): bv32
    requires LaneOk(l) && 4 * word + 3 < |bytes|
  {
    Join(bytes[4 * word + l.byte..4 * word + l.byte + l.size])
  }

  function WithLane(bytes: seq<bv32>, word: nat, l: Lane, v: bv32): (r: seq<bv32>)
    requires LaneOk(l) && 4 * word + 3 < |bytes|
    ensures |r| == |bytes|
  {
    var at := 4 * word + l.byte;
    bytes[..at] + seq(l.size, k requires 0 <= k < l.size => ByteOf(v, k)) + bytes[at + l.size..]
  }

  /** Caller `i` performs its whole operation at once. */
  ghost predicate Performs(a: Spec, i: nat, b: Spec) {
    && i < |a.callers| && a.callers[i].Waiting?
    && var j := a.callers[i].job;
       && LaneOk(j.lane) && 4 * j.word + 3 < |a.bytes|
       && var (new_, ret, ok) := Effect(j.op, j.lane, LaneAt(a.bytes, j.word, j.lane));
          && b.bytes == (if ok then WithLane(a.bytes, j.word, j.lane, new_) else a.bytes)
          && b.callers == a.callers[i := Returned(j, ret, ok)]
  }

  // ----- refinement, step by step -----

  lemma BytesAt(mem: seq<bv32>, word: nat, k: nat)
    requires word < |mem| && k < 4
    ensures Bytes(mem)[4 * word + k] == ByteOf(mem[word], k)
  {
    var a := 4 * word + k;
    assert a / 4 == word && a % 4 == k;
  }

  lemma ViewLane(mem: seq<bv32>, word: nat, l: Lane)
    requires LaneOk(l) && word < |mem|
    ensures LaneAt(Bytes(mem), word, l) == Extract(mem[word], l)
  {
    hide Bytes, ByteOf, Extract, Join;
    var at := 4 * word + l.byte;
    forall k: nat | k < l.size ensures Bytes(mem)[at..at + l.size][k] == LaneBytes(mem[word], l)[k] {
      BytesAt(mem, word, l.byte + k);
    }
    assert Bytes(mem)[at..at + l.size] == LaneBytes(mem[word], l);
    ExtractIsBytes(mem[word], l);
  }

  lemma ViewReplace(mem: seq<bv32>, word: nat, l: Lane, v: bv32)
    requires LaneOk(l) && word < |mem|
    ensures Bytes(mem[word := Replace(mem[word], l, v)]) == WithLane(Bytes(mem), word, l, v)
  {
    hide ByteOf, Replace;
    var after := mem[word := Replace(mem[word], l, v)];
    forall a | 0 <= a < 4 * |mem| ensures Bytes(after)[a] == WithLane(Bytes(mem), word, l, v)[a] {
      if a / 4 == word { ReplaceIsBytes(mem[word], l, v, a % 4); }
    }
  }

  lemma ViewOfStep(s: State, i: nat, t: State)
    requires StateOk(s) && Next(s, Run(i), t)
    ensures StateOk(t) && View(t).bytes == Bytes(Step(s.mem, s.threads[i]).0)
    ensures View(t).callers == View(s).callers[i := Abstract(Step(s.mem, s.threads[i]).1)]
  {
  }

  /** On a whole word the loop stores the operation's result itself, nothing extracted or replaced. */
  lemma WholeWord(j: Job, current: bv32)
    requires j.lane == FULL && j.op.Rmw?
    ensures Desired(j, current) == Applied(j.op.kind, FULL, current, j.op.operand)
    ensures Effect(j.op, FULL, current).1 == current == Extract(current, FULL)
  {
    hide Extract, Replace, Applied;
    ExtractFull(current);
    ReplaceFull(current, Applied(j.op.kind, FULL, current, j.op.operand));
  }

  /** What the loop stores is the operation's effect on the lane. */
  lemma SwapEffect(j: Job, current: bv32)
    requires LaneOk(j.lane) && !Mismatch(j, current)
    ensures var (new_, ret, ok) := Effect(j.op, j.lane, Extract(current, j.lane));
            ok && ret == Extract(current, j.lane) && Desired(j, current) == Replace(current, j.lane, new_)
  {
    hide Extract, Replace, Applied, LowMask;
  }

  lemma MismatchEffect(j: Job, current: bv32)
    requires LaneOk(j.lane) && Mismatch(j, current)
    ensures var v := Extract(current, j.lane); Effect(j.op, j.lane, v) == (v, v, false)
  {
  }

  lemma SwapStep(mem: seq<bv32>, t: Thread)
    requires t.job.word < |mem| && LaneOk(t.job.lane)
    requires t.Looping? && !Mismatch(t.job, t.current) && mem[t.job.word] == t.current
    ensures Step(mem, t) == (mem[t.job.word := Desired(t.job, t.current)],
        Done(t.job, Extract(t.current, t.job.lane), true))
    ensures Abstract(t) == Waiting(t.job)
  {
  }

  /** A successful word compare-exchange is the whole operation. */
  lemma SwapPerforms(s: State, i: nat, t: State)
    requires StateOk(s) && Next(s, Run(i), t)
    requires s.threads[i].Looping? && !Mismatch(s.threads[i].job, s.threads[i].current)
        && s.mem[s.threads[i].job.word] == s.threads[i].current
    ensures Performs(View(s), i, View(t))
  {
    var th := s.threads[i];
    var j := th.job;
    ViewOfStep(s, i, t);
    SwapEffect(j, th.current);
    SwapStep(s.mem, th);
    hide Bytes, LaneAt, WithLane, Extract, Replace, Effect, Desired, Mismatch, Step, LowMask;
    ViewLane(s.mem, j.word, j.lane);
    ViewReplace(s.mem, j.word, j.lane, Effect(j.op, j.lane, Extract(th.current, j.lane)).0);
  }

  /** A load, and a compare-exchange that fails, is invisible or is the failure of the whole operation. */
  lemma LoadPerforms(s: State, i: nat, t: State)
    requires StateOk(s) && Next(s, Run(i), t)
    requires s.threads[i].Ready? || (s.threads[i].Looping? && !Mismatch(s.threads[i].job, s.threads[i].current))
    requires t.threads[i] == Looping(s.threads[i].job, s.mem[s.threads[i].job.word]) && t.mem == s.mem
    ensures var j := s.threads[i].job;
            if Mismatch(j, s.mem[j.word]) then Performs(View(s), i, View(t)) else View(t) == View(s)
  {
    var j := s.threads[i].job;
    assert Abstract(s.threads[i]) == Waiting(j);
    if Mismatch(j, s.mem[j.word]) { MismatchEffect(j, s.mem[j.word]); }
    var now := s.mem[j.word];
    assert Abstract(t.threads[i]) == if Mismatch(j, now) then Returned(j, Extract(now, j.lane), false) else Waiting(j);
    hide Bytes, LaneAt, WithLane, Extract, Effect, Mismatch, Step, Abstract;
    ViewOfStep(s, i, t);
    ViewLane(s.mem, j.word, j.lane);
    if !Mismatch(j, s.mem[j.word]) {
      assert View(t).callers == View(s).callers;
    }
  }

  /** Every step of a thread is invisible or is its whole operation at that instant. */
  lemma StepRefines(s: State, i: nat, t: State)
    requires StateOk(s) && Next(s, Run(i), t)
    ensures StateOk(t) && (View(t) == View(s) || Performs(View(s), i, View(t)))
    ensures t.mem != s.mem ==> Performs(View(s), i, View(t)) && t.threads[i].Done? && t.threads[i].success
  {
    var th := s.threads[i];
    ViewOfStep(s, i, t);
    if th.Looping? && !Mismatch(th.job, th.current) && s.mem[th.job.word] == th.current {
      SwapPerforms(s, i, t);
    } else if th.Ready? || (th.Looping? && !Mismatch(th.job, th.current)) {
      LoadPerforms(s, i, t);
    } else {
      assert View(t).callers == View(s).callers;
    }
  }

  // ----- runs -----

  ghost predicate IsRun(states: seq<State>, moves: seq<Move>) {
    && |states| == |moves| + 1
    && (forall k :: 0 <= k < |states| ==>
        StateOk(states[k]) && |states[k].threads| == |states[0].threads| && |states[k].mem| == |states[0].mem|)
    && (forall k :: 0 <= k < |moves| ==> Next(states[k], moves[k], states[k + 1]))
  }

  /** Step `k` is the instant at which caller `i`'s operation happens. */
  ghost predicate HappensAt(states: seq<State>, moves: seq<Move>, i: nat, k: nat)
    requires IsRun(states, moves)
  {
    k < |moves| && moves[k] == Run(i) && Performs(View(states[k]), i, View(states[k + 1]))
  }

  function CallerOf(s: State, i: nat): Caller
    requires i < |s.threads| && LaneOk(s.threads[i].job.lane)
  {
    Abstract(s.threads[i])
  }

  lemma CallerChanges(states: seq<State>, moves: seq<Move>, i: nat, k: nat)
    requires IsRun(states, moves) && i < |states[0].threads| && k < |moves|
    ensures CallerOf(states[k + 1], i) == CallerOf(states[k], i) || HappensAt(states, moves, i, k)
    ensures HappensAt(states, moves, i, k) ==> CallerOf(states[k], i).Waiting? && CallerOf(states[k + 1], i).Returned?
    ensures CallerOf(states[k], i).Returned? ==> CallerOf(states[k + 1], i) == CallerOf(states[k], i)
  {
    var s, t := states[k], states[k + 1];
    assert Next(s, moves[k], t);
    if moves[k] == Run(i) {
      StepRefines(s, i, t);
      assert CallerOf(s, i) == View(s).callers[i] && CallerOf(t, i) == View(t).callers[i];
    }
  }

  lemma {:induction false} ReturnedStays(states: seq<State>, moves: seq<Move>, i: nat, a: nat, b: nat)
    requires IsRun(states, moves) && i < |states[0].threads| && a <= b < |states| && CallerOf(states[a], i).Returned?
    ensures CallerOf(states[b], i) == CallerOf(states[a], i)
    decreases b - a
  {
    if a < b {
      ReturnedStays(states, moves, i, a, b - 1);
      CallerChanges(states, moves, i, b - 1);
    }
  }

  lemma SameInstant(states: seq<State>, moves: seq<Move>, i: nat, j: nat, k: nat)
    requires IsRun(states, moves) && i < |states[0].threads| && HappensAt(states, moves, i, j)
        && HappensAt(states, moves, i, k)
    ensures j == k
  {
    CallerChanges(states, moves, i, j);
    CallerChanges(states, moves, i, k);
    if j < k { ReturnedStays(states, moves, i, j + 1, k); }
    if k < j { ReturnedStays(states, moves, i, k + 1, j); }
  }

  /** In every run, an operation that has returned happened at exactly one instant inside its call,
      with the value it returned. */
  lemma {:induction false} HappensOnce(states: seq<State>, moves: seq<Move>, i: nat, n: nat) returns (k: nat)
    requires IsRun(states, moves) && i < |states[0].threads| && n < |states|
    requires CallerOf(states[0], i).Waiting? && CallerOf(states[n], i).Returned?
    ensures k < n && HappensAt(states, moves, i, k) && CallerOf(states[k + 1], i) == CallerOf(states[n], i)
    ensures forall j :: 0 <= j < n && HappensAt(states, moves, i, j) ==> j == k
    decreases n
  {
    CallerChanges(states, moves, i, n - 1);
    if CallerOf(states[n - 1], i).Returned? {
      k := HappensOnce(states, moves, i, n - 1);
    } else {
      k := n - 1;
    }
    forall j | 0 <= j < n && HappensAt(states, moves, i, j) ensures j == k {
      SameInstant(states, moves, i, j, k);
    }
  }

  /** A thread's steps change memory only at that instant. */
  lemma ChangesOnlyThen(states: seq<State>, moves: seq<Move>, i: nat, k: nat)
    requires IsRun(states, moves) && i < |states[0].threads| && k < |moves| && moves[k] == Run(i)
    ensures states[k + 1].mem != states[k].mem ==> HappensAt(states, moves, i, k)
  {
    assert Next(states[k], moves[k], states[k + 1]);
    StepRefines(states[k], i, states[k + 1]);
  }

  /** What a thread holds as current was in memory when it looked. */
  lemma LookedAt(states: seq<State>, moves: seq<Move>, i: nat, k: nat)
    requires IsRun(states, moves) && i < |states[0].threads| && k < |moves| && moves[k] == Run(i)
        && states[k + 1].threads[i].Looping?
    ensures states[k + 1].mem[states[k + 1].threads[i].job.word] == states[k + 1].threads[i].current
  {
    assert Next(states[k], moves[k], states[k + 1]);
  }

  /** A word that differs after a stretch without thread `i` was changed by someone else in it. */
  lemma {:induction false} ChangedBetween(states: seq<State>, moves: seq<Move>, i: nat, w: nat, a: nat, b: nat)
    returns (k: nat)
    requires IsRun(states, moves) && a <= b < |states| && w < |states[0].mem|
    requires forall k :: a <= k < b ==> moves[k] != Run(i)
    requires states[a].mem[w] != states[b].mem[w]
    ensures a <= k < b && moves[k] != Run(i) && states[k].mem[w] != states[k + 1].mem[w]
    decreases b - a
  {
    k := b - 1;
    if states[k].mem[w] != states[a].mem[w] { k := ChangedBetween(states, moves, i, w, a, k); }
  }

  /** The last step of a looping thread, which is when it looked. */
  lemma {:induction false} LastLook(states: seq<State>, moves: seq<Move>, i: nat, b: nat) returns (a: nat)
    requires IsRun(states, moves) && i < |states[0].threads| && b < |states|
    requires states[0].threads[i].Ready? && states[b].threads[i].Looping?
    ensures a < b && moves[a] == Run(i) && states[a + 1].threads[i] == states[b].threads[i]
    ensures forall k :: a < k < b ==> moves[k] != Run(i)
    decreases b
  {
    assert Next(states[b - 1], moves[b - 1], states[b - 1 + 1]);
    if moves[b - 1] == Run(i) {
      a := b - 1;
    } else {
      a := LastLook(states, moves, i, b - 1);
    }
  }

  /** A retry, at step `b`, means that since the thread last looked, at `a`, someone else changed the word. */
  lemma RetryMeansInterference(states: seq<State>, moves: seq<Move>, i: nat, b: nat) returns (a: nat)
    requires IsRun(states, moves) && i < |states[0].threads| && b < |moves| && moves[b] == Run(i)
    requires states[0].threads[i].Ready? && states[b].threads[i].Looping? && states[b + 1].threads[i].Looping?
    ensures a < b && moves[a] == Run(i) && forall k :: a < k < b ==> moves[k] != Run(i)
    ensures var w := states[b].threads[i].job.word;
            exists k :: a < k < b && moves[k] != Run(i) && states[k].mem[w] != states[k + 1].mem[w]
  {
    a := LastLook(states, moves, i, b);
    LookedAt(states, moves, i, a);
    assert Next(states[b], moves[b], states[b + 1]);
    var k := ChangedBetween(states, moves, i, states[b].threads[i].job.word, a + 1, b);
  }
}
