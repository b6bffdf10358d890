/** Mutexes and condition variables over fibers: a spin lock in one word and a sequence counter that
    waiters poll. Every fiber moves one atomic access at a time, in any interleaving. */
module FiberLocks {
  import opened Wrappers

  const WRAP: nat := 0x1_0000_0000
  const BILLION := 1_000_000_000

  datatype Time = Time(sec: int, nsec: int)

  /** Why a call returned. A wait remembers how many signals had been sent when it sampled. */
  datatype Outcome =
    | Fresh
    | Acquired
    | Busy
    | Invalid
    | Signalled(sampledAt: nat)
    | TimedOut
    | ClockFailed(errno: int)

  const EBUSY := 16
  const EINVAL := 22
  const ETIMEDOUT := 110

  /** What the caller sees. */
  function Code(o: Outcome): int {
    match o
    case Fresh => 0
    case Acquired => 0
    case Busy => EBUSY
    case Invalid => EINVAL
    case Signalled(_) => 0
    case TimedOut => ETIMEDOUT
    case ClockFailed(e) => e
  }

  datatype Pc =
    | Running(holds: bool, last: Outcome)                   // in the caller's code
    | Exchange(holds: bool, outcome: Outcome)               // about to swap a 1 into the lock
    | Spin(holds: bool, outcome: Outcome)                   // watching the lock
    | Sample(deadline: Option<Time>)                        // about to read the sequence
    | Release(deadline: Option<Time>, sample: nat, at: nat) // about to clear the lock
    | Poll(deadline: Option<Time>, sample: nat, at: nat)    // about to compare the sequence
    | Clock(limit: Time, sample: nat, at: nat)           // about to read the clock

  datatype State = State(locked: bool, sequence: nat, signals: nat, fibers: seq<Pc>)

  predicate Late(now: Time, deadline: Time) {
    now.sec > deadline.sec || (now.sec == deadline.sec && now.nsec >= deadline.nsec)
  }

  predicate BadDeadline(d: Option<Time>) { d.Some? && (d.value.nsec < 0 || d.value.nsec >= BILLION) }

  /** The calls a fiber may make. */
  datatype Call = TryLock | Lock | Unlock | Wait(deadline: Option<Time>) | Signal

  /** What a step takes from outside: the call made, or the clock's answer. */
  datatype Input = Make(call: Call) | Now(time: Time) | Failure(errno: int) | Silent

  /** A time as the clock reports it. */
  predicate Normal(t: Time) { 0 <= t.nsec < BILLION }

  /** Only a holder unlocks or waits; the clock reports a normal time or fails with an error number. */
  predicate Allowed(pc: Pc, input: Input) {
    match pc
    case Running(holds, _) => input.Make? && (input.call.Unlock? || input.call.Wait? ==> holds)
    case Exchange(_, _) => input.Silent?
    case Spin(_, _) => input.Silent?
    case Sample(_) => input.Silent?
    case Release(_, _, _) => input.Silent?
    case Poll(_, _, _) => input.Silent?
    case Clock(_, _, _) => (input.Now? && Normal(input.time)) || (input.Failure? && input.errno != 0)
  }

  function Moved(s: State, f: nat, pc: Pc): State
    requires f < |s.fibers|
  {
    s.(fibers := s.fibers[f := pc])
  }

  function CallStep(s: State, f: nat, call: Call): State
    requires f < |s.fibers| && s.fibers[f].Running?
  {
    var pc := s.fibers[f];
    match call
    case TryLock =>
      if s.locked then Moved(s, f, Running(pc.holds, Busy))
      else Moved(s, f, Running(true, Acquired)).(locked := true)
    case Lock => Moved(s, f, Exchange(pc.holds, Acquired))
    case Unlock => Moved(s, f, Running(false, Fresh)).(locked := false)
    case Wait(d) => if BadDeadline(d) then Moved(s, f, Running(pc.holds, Invalid)) else Moved(s, f, Sample(d))
    case Signal => s.(sequence := (s.sequence + 1) % WRAP, signals := s.signals + 1)
  }

  /** One atomic access by fiber `f`. */
  function Step(s: State, f: nat, input: Input): State
    requires f < |s.fibers| && Allowed(s.fibers[f], input)
  {
    match s.fibers[f]
    case Running(_, _) => CallStep(s, f, input.call)
    case Exchange(h, o) => if s.locked then Moved(s, f, Spin(h, o)) else Moved(s, f, Running(true, o)).(locked := true)
    case Spin(h, o) => if s.locked then s else Moved(s, f, Exchange(h, o))
    case Sample(d) => Moved(s, f, Release(d, s.sequence, s.signals))
    case Release(d, n, at) => Moved(s, f, Poll(d, n, at)).(locked := false)
    case Poll(d, n, at) =>
      if s.sequence != n then Moved(s, f, Exchange(false, Signalled(at)))
      else if d.Some? then Moved(s, f, Clock(d.value, n, at))
      else s
    case Clock(d, n, at) =>
      if input.Failure? then Moved(s, f, Exchange(false, ClockFailed(input.errno)))
      else if Late(input.time, d) then Moved(s, f, Exchange(false, TimedOut))
      else Moved(s, f, Poll(Some(d), n, at))
  }

  ghost predicate Next(s: State, s': State) {
    exists f: nat, input :: f < |s.fibers| && Allowed(s.fibers[f], input) && s' == Step(s, f, input)
  }

  ghost predicate Initial(s: State) {
    !s.locked && s.sequence == 0 && s.signals == 0 && forall f :: 0 <= f < |s.fibers| ==>
        s.fibers[f] == Running(false, Fresh)
  }

  ghost predicate IsRun(run: seq<State>) {
    run != [] && Initial(run[0]) && forall i :: 0 <= i < |run| - 1 ==> Next(run[i], run[i + 1])
  }

  // ----- the invariant -----

  /** The fiber owns the mutex: it took it and has not cleared it. */
  predicate Holds(pc: Pc) {
    match pc
    case Running(h, _) => h
    case Exchange(h, _) => h
    case Spin(h, _) => h
    case Sample(_) => true
    case Release(_, _, _) => true
    case Poll(_, _, _) => false
    case Clock(_, _, _) => false
  }

  predicate Woken(o: Outcome, signals: nat) { o.Signalled? ==> o.sampledAt < signals }

  /** A waiter's sample is the counter's value when it sampled; a wake-up follows a later signal. */
  predicate SampleOk(pc: Pc, signals: nat) {
    match pc
    case Running(_, o) => Woken(o, signals)
    case Exchange(_, o) => Woken(o, signals)
    case Spin(_, o) => Woken(o, signals)
    case Sample(_) => true
    case Release(_, n, at) => at <= signals && n == at % WRAP
    case Poll(_, n, at) => at <= signals && n == at % WRAP
    case Clock(_, n, at) => at <= signals && n == at % WRAP
  }

  ghost predicate Exclusive(s: State) {
    forall f, g :: 0 <= f < |s.fibers| && 0 <= g < |s.fibers| && Holds(s.fibers[f]) && Holds(s.fibers[g]) ==> f == g
  }

  ghost predicate Inv(s: State) {
    && s.sequence == s.signals % WRAP
    && Exclusive(s)
    && (s.locked <==> exists f :: 0 <= f < |s.fibers| && Holds(s.fibers[f]))
    && forall f :: 0 <= f < |s.fibers| ==> SampleOk(s.fibers[f], s.signals)
  }

  lemma MoveKeeps(s: State, f: nat, pc: Pc, locked: bool)
    requires Inv(s) && f < |s.fibers| && SampleOk(pc, s.signals)
    requires if Holds(pc) then locked
        && (Holds(s.fibers[f]) || !s.locked) else locked == (s.locked && !Holds(s.fibers[f]))
    ensures Inv(Moved(s, f, pc).(locked := locked))
  {
    var t := Moved(s, f, pc).(locked := locked);
    assert t.fibers[f] == pc && forall g :: 0 <= g < |s.fibers| && g != f ==> t.fibers[g] == s.fibers[g];
    if s.locked {
      var g :| 0 <= g < |s.fibers| && Holds(s.fibers[g]);
      assert t.fibers[g] == if g == f then pc else s.fibers[g];
    }
  }

  lemma SignalKeeps(s: State)
    requires Inv(s)
    ensures Inv(s.(sequence := (s.sequence + 1) % WRAP, signals := s.signals + 1))
  {
  }

  lemma StepKeeps(s: State, f: nat, input: Input)
    requires Inv(s) && f < |s.fibers| && Allowed(s.fibers[f], input)
    ensures Inv(Step(s, f, input))
  {
    var t, pc := Step(s, f, input), s.fibers[f];
    assert SampleOk(pc, s.signals);
    hide Inv, Exclusive;
    if pc.Running? && input.call.Signal? {
      SignalKeeps(s);
    } else {
      assert t == Moved(s, f, t.fibers[f]).(locked := t.locked);
      HolderLocks(s, f);
      MoveKeeps(s, f, t.fibers[f], t.locked);
    }
  }

  lemma HolderLocks(s: State, f: nat)
    requires Inv(s) && f < |s.fibers|
    ensures Holds(s.fibers[f]) ==> s.locked
    ensures s.sequence == s.signals % WRAP
  {
  }

  lemma {:induction false} RunKeeps(run: seq<State>, i: nat)
    requires IsRun(run) && i < |run|
    ensures Inv(run[i])
  {
    if i > 0 {
      RunKeeps(run, i - 1);
      assert Next(run[i - 1], run[i - 1 + 1]);
      var f: nat, input :| f < |run[i - 1].fibers| && Allowed(run[i - 1].fibers[f], input)
          && run[i] == Step(run[i - 1], f, input);
      StepKeeps(run[i - 1], f, input);
    }
  }

  /** In every run at most one fiber holds the mutex, and the lock word says whether one does. */
  lemma MutualExclusion(run: seq<State>, i: nat, f: nat, g: nat)
    requires IsRun(run) && i < |run| && f < |run[i].fibers| && g < |run[i].fibers|
    ensures Holds(run[i].fibers[f]) && Holds(run[i].fibers[g]) ==> f == g
    ensures Holds(run[i].fibers[f]) ==> run[i].locked
  {
    RunKeeps(run, i);
  }

  // ----- waiting -----

  /** Inside a wait: between the deadline check and the return. */
  predicate Waiting(pc: Pc) {
    match pc
    case Running(_, _) => false
    case Exchange(_, o) => !o.Acquired?
    case Spin(_, o) => !o.Acquired?
    case Sample(_) => true
    case Release(_, _, _) => true
    case Poll(_, _, _) => true
    case Clock(_, _, _) => true
  }

  ghost predicate WaitOutcome(o: Outcome) { o.Signalled? || o.TimedOut? || (o.ClockFailed? && o.errno != 0) }

  /** Locks taken back by a waiter carry a wait's outcome. */
  ghost predicate OutcomesOk(s: State) {
    forall f :: 0 <= f < |s.fibers| ==>
      match s.fibers[f]
      case Exchange(h, o) => o.Acquired? || (WaitOutcome(o) && !h)
      case Spin(h, o) => o.Acquired? || (WaitOutcome(o) && !h)
      case Running(_, _) => true
      case Sample(_) => true
      case Release(_, _, _) => true
      case Poll(_, _, _) => true
      case Clock(_, _, _) => true
  }

  lemma {:induction false} RunOutcomes(run: seq<State>, i: nat)
    requires IsRun(run) && i < |run|
    ensures OutcomesOk(run[i])
  {
    if i > 0 {
      RunOutcomes(run, i - 1);
      assert Next(run[i - 1], run[i - 1 + 1]);
    }
  }

  /** Every return from a wait leaves the caller holding the mutex: a bad deadline at once, any other
      way after taking the lock back, with code 0 exactly when woken by a signal. */
  lemma WaitReturnsHolding(run: seq<State>, i: nat, f: nat, input: Input)
    requires IsRun(run) && i < |run| && f < |run[i].fibers| && Allowed(run[i].fibers[f], input)
    requires Waiting(run[i].fibers[f]) || (run[i].fibers[f].Running? && input.call.Wait?)
    requires Step(run[i], f, input).fibers[f].Running?
    ensures var t := Step(run[i], f, input);
            && t.fibers[f].holds && t.locked
            && (run[i].fibers[f].Running? <==> t.fibers[f].last == Invalid)
            && (run[i].fibers[f].Running? ==>
                && Code(t.fibers[f].last) == 22 && t == Moved(run[i], f, t.fibers[f])
                && input.call.deadline.Some? && !(0 <= input.call.deadline.value.nsec < 1_000_000_000))
            && (Code(t.fibers[f].last) == 0 <==> t.fibers[f].last.Signalled?)
  {
    RunKeeps(run, i);
    RunOutcomes(run, i);
    HolderLocks(run[i], f);
    hide Inv;
  }

  /** A poll goes on waiting exactly when the signals since the sample are a multiple of 2^32. */
  lemma PollWakes(run: seq<State>, i: nat, f: nat)
    requires IsRun(run) && i < |run| && f < |run[i].fibers| && run[i].fibers[f].Poll?
    ensures var pc := run[i].fibers[f];
            && pc.at <= run[i].signals
            && (Step(run[i], f, Silent).fibers[f] != Exchange(false, Signalled(pc.at)) <==>
                (run[i].signals - pc.at) % WRAP == 0)
  {
    RunKeeps(run, i);
  }

  /** The signal count a waiting fiber remembers. */
  function Remembered(pc: Pc): Option<nat> {
    match pc
    case Running(_, _) => None
    case Exchange(_, o) => if o.Signalled? then Some(o.sampledAt) else None
    case Spin(_, o) => if o.Signalled? then Some(o.sampledAt) else None
    case Sample(_) => None
    case Release(_, _, at) => Some(at)
    case Poll(_, _, at) => Some(at)
    case Clock(_, _, at) => Some(at)
  }

  /** From the sampling step to the return, a fiber remembers the count it sampled. */
  lemma {:induction false} Remembers(run: seq<State>, i: nat, j: nat, f: nat)
    requires IsRun(run) && i < j < |run| && f < |run[0].fibers|
    requires forall k :: i <= k <= j ==> f < |run[k].fibers|
    requires run[i].fibers[f].Sample? && run[i + 1].fibers[f] != run[i].fibers[f]
    requires forall k :: i < k <= j ==> Waiting(run[k].fibers[f])
    ensures var r := Remembered(run[j].fibers[f]); r.None? || r.value == run[i].signals
    ensures !run[j].fibers[f].Sample?
    decreases j
  {
    assert Next(run[j - 1], run[j - 1 + 1]);
    if i + 1 < j {
      Remembers(run, i, j - 1, f);
    }
  }

  /** No lost wake-up: a fiber that sampled at `i` and polls at `j`, with fewer than 2^32 signals but
      at least one sent in between, is woken by that poll. */
  lemma SignalWakes(run: seq<State>, i: nat, j: nat, f: nat)
    requires IsRun(run) && i < j < |run| && f < |run[0].fibers|
    requires forall k :: i <= k <= j ==> f < |run[k].fibers|
    requires run[i].fibers[f].Sample? && run[i + 1].fibers[f] != run[i].fibers[f]
    requires forall k :: i < k <= j ==> Waiting(run[k].fibers[f])
    requires run[j].fibers[f].Poll? && 0 < run[j].signals - run[i].signals < WRAP
    ensures Step(run[j], f, Silent).fibers[f] == Exchange(false, Signalled(run[i].signals))
  {
    Remembers(run, i, j, f);
    PollWakes(run, j, f);
  }

  /** No wake-up without a signal: a wait that returns 0 saw a signal sent after it sampled. */
  lemma WokenBySignal(run: seq<State>, i: nat, j: nat, f: nat)
    requires IsRun(run) && i + 1 < j < |run| && f < |run[0].fibers|
    requires forall k :: i <= k <= j ==> f < |run[k].fibers|
    requires run[i].fibers[f].Sample? && run[i + 1].fibers[f] != run[i].fibers[f]
    requires forall k :: i < k < j ==> Waiting(run[k].fibers[f])
    requires run[j].fibers[f].Running? && Code(run[j].fibers[f].last) == 0
    ensures run[i].signals < run[j].signals
  {
    Remembers(run, i, j - 1, f);
    RunKeeps(run, j);
    RunOutcomes(run, j - 1);
    assert Next(run[j - 1], run[j - 1 + 1]);
    assert SampleOk(run[j].fibers[f], run[j].signals);
  }

  // ----- the lock -----

  /** Trying a lock takes it exactly when no fiber holds it, and otherwise changes nothing but the answer,
      16; a fiber that waits for the lock takes it at its next swap under the same condition. */
  lemma FreeLockIsTaken(run: seq<State>, i: nat, f: nat, input: Input)
    requires IsRun(run) && i < |run| && f < |run[i].fibers| && Allowed(run[i].fibers[f], input)
    requires run[i].fibers[f].Exchange? || (run[i].fibers[f].Running? && input.call.TryLock?)
    ensures var s, t := run[i], Step(run[i], f, input);
            var free := forall g :: 0 <= g < |s.fibers| ==> !Holds(s.fibers[g]);
            && (free ==> t.fibers[f].Running? && t.fibers[f].holds && t.locked)
            && (free && s.fibers[f].Exchange? ==> t.fibers[f].last == s.fibers[f].outcome)
            && (free && s.fibers[f].Running? ==> Code(t.fibers[f].last) == 0)
            && (!free ==> t == Moved(s, f, t.fibers[f]) && (Holds(t.fibers[f]) <==> Holds(s.fibers[f])))
            && (!free && s.fibers[f].Running? ==> t.fibers[f].Running? && Code(t.fibers[f].last) == 16)
            && (!free && s.fibers[f].Exchange? ==> t.fibers[f].Spin?)
  {
    RunKeeps(run, i);
  }

  /** Unlocking returns 0 and leaves the mutex to nobody; locking returns 0. */
  lemma UnlockFrees(run: seq<State>, i: nat, f: nat)
    requires IsRun(run) && i < |run| && f < |run[i].fibers|
    requires Allowed(run[i].fibers[f], Make(Unlock))
    ensures var t := Step(run[i], f, Make(Unlock));
            && !t.locked && (forall g :: 0 <= g < |t.fibers| ==> !Holds(t.fibers[g]))
            && t.fibers[f].Running? && Code(t.fibers[f].last) == 0
    ensures var pc := Step(run[i], f, Make(Lock)).fibers[f]; pc.Exchange? && Code(pc.outcome) == 0
  {
    RunKeeps(run, i);
  }

  /** A signal is seen by the next poll of every waiter that sampled fewer than 2^32 - 1 signals before it. */
  lemma SignalThenPoll(run: seq<State>, i: nat, g: nat, f: nat)
    requires IsRun(run) && i < |run| && g < |run[i].fibers| && f < |run[i].fibers|
    requires Allowed(run[i].fibers[g], Make(Signal)) && run[i].fibers[f].Poll?
    requires run[i].signals - run[i].fibers[f].at < WRAP - 1
    ensures var t := Step(run[i], g, Make(Signal));
            && t.fibers[f].Poll?
            && Step(t, f, Silent).fibers[f] == Exchange(false, Signalled(run[i].fibers[f].at))
  {
    RunKeeps(run, i);
    assert SampleOk(run[i].fibers[f], run[i].signals);
  }

  // ----- deadlines -----

  /** Nanoseconds since the epoch. */
  function Nanos(t: Time): int { t.sec * BILLION + t.nsec }

  /** A reading of the clock ends the wait with the timed-out code exactly when the deadline is not after it,
      and sends the fiber back to poll with the same deadline otherwise; a failing clock's number is returned. */
  lemma ClockDecides(s: State, f: nat, input: Input)
    requires f < |s.fibers| && s.fibers[f].Clock? && 0 <= s.fibers[f].limit.nsec < 1_000_000_000
    requires (input.Now? && 0 <= input.time.nsec < 1_000_000_000) || (input.Failure? && input.errno != 0)
    ensures Allowed(s.fibers[f], input)
    ensures var c, pc := s.fibers[f], Step(s, f, input).fibers[f];
            && (input.Failure? ==> pc == Exchange(false, ClockFailed(input.errno)))
            && (input.Now? && Nanos(c.limit) <= Nanos(input.time) ==>
                pc.Exchange? && !pc.holds && pc.outcome.TimedOut? && Code(pc.outcome) == 110)
            && (input.Now? && Nanos(c.limit) > Nanos(input.time) ==> pc == Poll(Some(c.limit), c.sample, c.at))
  {
  }

  /** Between states `k` and `k + 1` the fiber read a time not before `d`. */
  ghost predicate ReadsLate(run: seq<State>, k: nat, f: nat, d: Time, t: Time)
    requires k + 1 < |run| && f < |run[k].fibers|
  {
    && run[k].fibers[f].Clock? && Allowed(run[k].fibers[f], Now(t)) && run[k + 1] == Step(run[k], f, Now(t))
    && Nanos(d) <= Nanos(t)
  }

  /** Where a waiting fiber keeps the deadline it was called with. */
  predicate Carries(pc: Pc, d: Option<Time>) {
    match pc
    case Running(_, _) => true
    case Exchange(_, _) => true
    case Spin(_, _) => true
    case Sample(x) => x == d
    case Release(x, _, _) => x == d
    case Poll(x, _, _) => x == d
    case Clock(x, _, _) => Some(x) == d
  }

  predicate EndsTimedOut(pc: Pc) {
    match pc
    case Running(_, o) => o.TimedOut?
    case Exchange(_, o) => o.TimedOut?
    case Spin(_, o) => o.TimedOut?
    case Sample(_) => false
    case Release(_, _, _) => false
    case Poll(_, _, _) => false
    case Clock(_, _, _) => false
  }

  /** A fiber called to wait at `i` with deadline `d` and has not returned before `j`. */
  ghost predicate InWait(run: seq<State>, i: nat, j: nat, f: nat, d: Option<Time>) {
    && IsRun(run) && i < j < |run|
    && (forall k :: i <= k <= j ==> f < |run[k].fibers|)
    && Allowed(run[i].fibers[f], Make(Wait(d))) && run[i + 1] == Step(run[i], f, Make(Wait(d)))
    && (forall k :: i < k < j ==> Waiting(run[k].fibers[f]))
  }

  ghost predicate LateReading(run: seq<State>, i: nat, j: nat, f: nat, d: Time)
    requires j < |run| && forall k :: i <= k <= j ==> f < |run[k].fibers|
  {
    exists k: nat, t :: i < k < j && ReadsLate(run, k, f, d, t)
  }

  lemma WaitStarts(s: State, f: nat, d: Option<Time>)
    requires f < |s.fibers| && Allowed(s.fibers[f], Make(Wait(d)))
    ensures var pc := Step(s, f, Make(Wait(d))).fibers[f];
            Carries(pc, d) && !EndsTimedOut(pc) && (Waiting(pc) && d.Some? ==> Normal(d.value))
  {
  }

  lemma WaitStepCarries(s: State, g: nat, input: Input, f: nat, d: Option<Time>)
    requires f < |s.fibers| && g < |s.fibers| && Allowed(s.fibers[g], input)
    requires Waiting(s.fibers[f]) && Carries(s.fibers[f], d) && (d.Some? ==> Normal(d.value))
    ensures var t := Step(s, g, input).fibers[f];
            && Carries(t, d)
            && (EndsTimedOut(t) && !EndsTimedOut(s.fibers[f]) ==>
                && g == f && s.fibers[f].Clock? && input.Now? && d.Some? && Nanos(d.value) <= Nanos(input.time))
  {
  }

  lemma {:induction false} WaitCarries(run: seq<State>, i: nat, j: nat, f: nat, d: Option<Time>)
    requires InWait(run, i, j, f, d)
    ensures Carries(run[j].fibers[f], d)
    ensures j == i + 1 || (d.Some? ==> Normal(d.value))
    ensures EndsTimedOut(run[j].fibers[f]) ==> d.Some? && LateReading(run, i, j, f, d.value)
    decreases j
  {
    hide Step, Allowed, Carries, EndsTimedOut, Waiting, ReadsLate;
    WaitStarts(run[i], f, d);
    if i + 1 < j {
      WaitCarries(run, i, j - 1, f, d);
      assert Waiting(run[i + 1].fibers[f]);
      assert Next(run[j - 1], run[j - 1 + 1]);
      var g: nat, input :| g < |run[j - 1].fibers| && Allowed(run[j - 1].fibers[g], input)
          && run[j] == Step(run[j - 1], g, input);
      WaitStepCarries(run[j - 1], g, input, f, d);
      if EndsTimedOut(run[j].fibers[f]) {
        if EndsTimedOut(run[j - 1].fibers[f]) {
          LateReadingStays(run, i, j, f, d.value);
        } else {
          LateHere(run, i, j, f, d.value, input.time);
        }
      }
    }
  }

  lemma LateHere(run: seq<State>, i: nat, j: nat, f: nat, d: Time, t: Time)
    requires i + 1 < j < |run| && (forall k :: i <= k <= j ==> f < |run[k].fibers|)
    requires run[j - 1].fibers[f].Clock? && Allowed(run[j - 1].fibers[f], Now(t))
    requires run[j] == Step(run[j - 1], f, Now(t)) && Nanos(d) <= Nanos(t)
    ensures LateReading(run, i, j, f, d)
  {
    hide Step, Allowed;
    assert ReadsLate(run, j - 1, f, d, t);
  }

  lemma LateReadingStays(run: seq<State>, i: nat, j: nat, f: nat, d: Time)
    requires i < j < |run| && (forall k :: i <= k <= j ==> f < |run[k].fibers|)
    requires LateReading(run, i, j - 1, f, d)
    ensures LateReading(run, i, j, f, d)
  {
    hide ReadsLate;
    var k: nat, t :| i < k < j - 1 && ReadsLate(run, k, f, d, t);
    assert ReadsLate(run, k, f, d, t);
  }

  /** A wait that returns the timed-out code was given a deadline and read a time at or after it. */
  lemma TimeoutIsLate(run: seq<State>, i: nat, j: nat, f: nat, d: Option<Time>)
    requires InWait(run, i, j, f, d) && run[j].fibers[f].Running? && run[j].fibers[f].last.TimedOut?
    ensures d.Some? && exists k: nat, t :: i < k < j && ReadsLate(run, k, f, d.value, t)
  {
    WaitCarries(run, i, j, f, d);
  }
}
