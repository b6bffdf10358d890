/** The arena initializer: any number of calls race to allocate, relocate and publish the
    arena once, while entry programs fail closed until it is published. */
module ArenaInit {
  import opened Wrappers
  import opened Bits

  // ----- the allocation and its aligned base -----

  /** Page and slice sizes are powers of two; the memory end comes from the loaded configuration. */
  datatype Arena = Arena(pageShift: nat, sliceShift: nat, addressBits: nat, memoryEnd: nat)

  ghost predicate ArenaOk(a: Arena) {
    a.pageShift <= a.addressBits && a.sliceShift <= a.addressBits
  }

  function Page(a: Arena): nat { Pow2(a.pageShift) }

  function Slice(a: Arena): nat { Pow2(a.sliceShift) }

  /** One slice of pages less one, unless a slice fits a page. */
  function SlackPages(a: Arena): nat {
    if Slice(a) > Page(a) then Slice(a) / Page(a) - 1 else 0
  }

  function Pages(a: Arena): nat {
    (a.memoryEnd + Page(a) - 1) / Page(a) + SlackPages(a)
  }

  /** Round the allocation up to a slice boundary by adding and masking. */
  function Base(a: Arena, allocation: nat): nat
    requires ArenaOk(a)
  {
    if SlackPages(a) == 0 then allocation
    else
      Pow2Monotone(a.sliceShift, a.addressBits);
      And(allocation + Slice(a) - 1, Pow2(a.addressBits) - Slice(a))
  }

  /** What the kernel returns: a page-aligned address whose pages are addressable. */
  ghost predicate Granted(a: Arena, allocation: nat) {
    allocation > 0 && allocation % Page(a) == 0 && allocation + Pages(a) * Page(a) <= Pow2(a.addressBits)
        && allocation + Slice(a) <= Pow2(a.addressBits)
  }

  /** The base is the allocation's first slice boundary, and from it the whole memory lies inside the allocation. */
  ghost predicate Fits(a: Arena, allocation: nat, base: nat) {
    && base % Slice(a) == 0 && allocation <= base < allocation + Slice(a)
    && base + a.memoryEnd <= allocation + Pages(a) * Page(a)
  }

  lemma MultipleOf(x: nat, d: nat)
    requires d > 0 && x % d == 0
    ensures x == x / d * d
  {
  }

  lemma Multiples(m: nat, n: nat, d: nat)
    requires d > 0
    ensures (m * d) % d == 0 && (m * d) / d == m && (m <= n ==> m * d <= n * d) && (m < n ==> m * d + d <= n * d)
  {
    DivUnique(m * d, d, m, 0);
    if m < n { assert (n - m - 1) * d >= 0; assert (n - m - 1) * d == n * d - m * d - d; }
  }

  /** Pages cover the memory end. */
  lemma PagesCover(end: nat, page: nat)
    requires page > 0
    ensures end <= (end + page - 1) / page * page
  {
    var x := end + page - 1;
    assert x == x / page * page + x % page;
  }

  /** A power of two divides a larger one. */
  lemma PowerDivides(k: nat, n: nat)
    requires k <= n
    ensures Pow2(n) % Pow2(k) == 0 && Pow2(n) == Pow2(n - k) * Pow2(k) && Pow2(n) / Pow2(k) == Pow2(n - k)
  {
    Pow2Add(n - k, k);
    DivUnique(Pow2(n), Pow2(k), Pow2(n - k), 0);
  }

  lemma AlignedUp(x: nat, s: nat, n: nat)
    requires s <= n && x + Pow2(s) <= Pow2(n)
    ensures Pow2(s) <= Pow2(n)
    ensures var b := And(x + Pow2(s) - 1, Pow2(n) - Pow2(s)); b % Pow2(s) == 0 && x <= b < x + Pow2(s)
  {
    var y := x + Pow2(s) - 1;
    AndMask(y, s, n);
    DivUnique(y, Pow2(n), 0, y);
    ResidueOff(y, Pow2(s));
  }

  lemma MultipleGap(allocation: nat, base: nat, page: nat, slice: nat)
    requires page > 0 && allocation % page == 0 && base % page == 0 && slice % page == 0
        && allocation <= base < allocation + slice
    ensures base + page <= allocation + slice
  {
    var x, y, z := allocation / page, base / page, slice / page;
    MultipleOf(allocation, page);
    MultipleOf(base, page);
    MultipleOf(slice, page);
    assert (x + z) * page == allocation + slice;
    if y < x + z { Multiples(y, x + z, page); } else { Multiples(x + z, y, page); }
  }

  lemma {:induction false} SliceOfPages(b: nat, s: nat, k: nat)
    requires k <= s && b % Pow2(s) == 0
    ensures b % Pow2(k) == 0
  {
    ModOfMod(b, k, s);
    assert 0 % Pow2(k) == 0;
  }

  lemma SliceIsPages(a: Arena)
    requires Slice(a) > Page(a)
    ensures a.pageShift < a.sliceShift && Slice(a) % Page(a) == 0
    ensures SlackPages(a) > 0 && SlackPages(a) * Page(a) == Slice(a) - Page(a)
  {
    if a.sliceShift <= a.pageShift { Pow2Monotone(a.sliceShift, a.pageShift); }
    PowerDivides(a.pageShift, a.sliceShift);
    var page, ratio := Page(a), Slice(a) / Page(a);
    MultipleOf(Slice(a), page);
    if ratio <= 1 { Multiples(ratio, 1, page); }
    assert (ratio - 1) * page == ratio * page - page;
  }

  lemma LargeSliceBase(a: Arena, allocation: nat)
    requires ArenaOk(a) && Granted(a, allocation) && Slice(a) > Page(a)
    ensures var base := Base(a, allocation); base % Slice(a) == 0 && allocation <= base < allocation + Slice(a)
  {
    SliceIsPages(a);
    AlignedUp(allocation, a.sliceShift, a.addressBits);
    hide Pow2, And;
  }

  lemma LargeSlice(a: Arena, allocation: nat)
    requires ArenaOk(a) && Granted(a, allocation) && Slice(a) > Page(a)
    ensures Fits(a, allocation, Base(a, allocation))
  {
    SliceIsPages(a);
    PagesCover(a.memoryEnd, Page(a));
    LargeSliceBase(a, allocation);
    SliceOfPages(Base(a, allocation), a.sliceShift, a.pageShift);
    MultipleGap(allocation, Base(a, allocation), Page(a), Slice(a));
    hide Pow2, And, Base, Slice, Page, SlackPages;
    var pages := (a.memoryEnd + Page(a) - 1) / Page(a);
    EndInside(a.memoryEnd, Page(a), pages, SlackPages(a), Slice(a), allocation, Base(a, allocation));
  }

  lemma EndInside(end: nat, page: nat, whole: nat, slack: nat, slice: nat, allocation: nat, base: nat)
    requires end <= whole * page && slack * page == slice - page && base + page <= allocation + slice
    ensures base + end <= allocation + (whole + slack) * page
  {
    assert (whole + slack) * page == whole * page + slack * page;
  }

  lemma SmallSlice(a: Arena, allocation: nat)
    requires ArenaOk(a) && Granted(a, allocation) && Slice(a) <= Page(a)
    ensures Fits(a, allocation, Base(a, allocation))
  {
    PagesCover(a.memoryEnd, Page(a));
    if a.pageShift < a.sliceShift { SmallerPower(a.pageShift, a.sliceShift); }
    SliceOfPages(allocation, a.pageShift, a.sliceShift);
    hide Pow2, And;
  }

  /** The published base is slice-aligned and the memory end stays inside the allocation. */
  lemma BaseFits(a: Arena, allocation: nat)
    requires ArenaOk(a) && Granted(a, allocation)
    ensures Fits(a, allocation, Base(a, allocation))
  {
    if Slice(a) > Page(a) { LargeSlice(a, allocation); } else { SmallSlice(a, allocation); }
  }

  lemma PagesTight(end: nat, page: nat, n: nat)
    requires page > 0 && n < (end + page - 1) / page
    ensures n * page < end
  {
    var x := end + page - 1;
    assert x == x / page * page + x % page;
    Multiples(n, x / page, page);
  }

  /** No smaller allocation would do: with fewer pages, some page-aligned address has no slice boundary
      from which the whole memory lies inside. */
  lemma PagesAreNeeded(a: Arena, n: nat) returns (allocation: nat)
    requires n < Pages(a)
    ensures allocation > 0 && allocation % Page(a) == 0
    ensures forall base :: base % Slice(a) == 0 && allocation <= base ==>
        base + a.memoryEnd > allocation + n * Page(a)
  {
    var page, slice := Page(a), Slice(a);
    allocation := page;
    if slice > page {
      SliceIsPages(a);
      var whole := (a.memoryEnd + page - 1) / page;
      forall base | base % slice == 0 && allocation <= base ensures base + a.memoryEnd > allocation + n * page {
        FirstBoundary(base, slice, page);
        if n < SlackPages(a) {
          Multiples(n, SlackPages(a), page);
        } else {
          assert n - SlackPages(a) < whole;
          PagesTight(a.memoryEnd, page, n - SlackPages(a));
          assert n * page == SlackPages(a) * page + (n - SlackPages(a)) * page;
        }
      }
    } else {
      PagesTight(a.memoryEnd, page, n);
    }
    Multiples(1, 1, page);
  }

  lemma FirstBoundary(base: nat, slice: nat, page: nat)
    requires slice > 0 && 0 < page <= base && base % slice == 0
    ensures base >= slice
  {
    MultipleOf(base, slice);
    Multiples(1, base / slice, slice);
  }

  lemma SmallerPower(k: nat, n: nat)
    requires k < n
    ensures Pow2(k) < Pow2(n)
  {
    Pow2Monotone(k, n - 1);
  }

  // ----- the protocol -----

  /** Where a call of the initializer, or an entry program, is. */
  datatype Thread =
    | Start                              // about to read the ready word
    | Claim                              // about to try 0 -> 1
    | Allocate
    | StoreBase(allocation: nat)
    | Relocate(allocation: nat, k: nat)  // about to write slot k, or to publish
    | Fail                               // about to go back to 0
    | Finished(code: int)
    | Gate                               // an entry program about to check the ready word
    | Entered
    | Refused

  const EAGAIN := -11
  const ENOMEM := -12

  /** `slots` are the initialized words that hold pointers; slot k must become base + addends[k]. */
  datatype State = State(ready: nat, base: nat, slots: seq<nat>, threads: seq<Thread>)

  datatype Setup = Setup(arena: Arena, addends: seq<nat>)

  function Relocated(c: Setup, base: nat, k: nat): nat
    requires k < |c.addends|
  {
    (base + c.addends[k]) % Pow2(c.arena.addressBits)
  }

  predicate Owner(t: Thread) {
    t.Allocate? || t.StoreBase? || t.Relocate? || t.Fail?
  }

  /** One step of thread `i`; `grant` is the kernel's answer if the step allocates. */
  ghost predicate Next(c: Setup, s: State, i: nat, grant: Option<nat>, t: State)
    requires ArenaOk(c.arena)
  {
    && i < |s.threads|
    && match s.threads[i]
       case Start => t == s.(threads := s.threads[i := if s.ready == 2 then Finished(0) else Claim])
       case Claim =>
         if s.ready == 0 then t == s.(ready := 1, threads := s.threads[i := Allocate])
         else t == s.(threads := s.threads[i := Finished(if s.ready == 2 then 0 else EAGAIN)])
       case Allocate =>
         if grant.None? then t == s.(threads := s.threads[i := Fail])
         else Granted(c.arena, grant.value) && t == s.(threads := s.threads[i := StoreBase(grant.value)])
       case StoreBase(x) => t == s.(base := Base(c.arena, x), threads := s.threads[i := Relocate(x, 0)])
       case Relocate(x, k) =>
         if k < |s.slots| && k < |c.addends| then
           var slots := s.slots[k := Relocated(c, Base(c.arena, x), k)];
           t == s.(slots := slots, threads := s.threads[i := Relocate(x, k + 1)])
         else t == s.(ready := 2, threads := s.threads[i := Finished(0)])
       case Fail => t == s.(ready := 0, threads := s.threads[i := Finished(ENOMEM)])
       case Finished(_) => t == s.(threads := s.threads[i := Start])      // the host calls again
       case Gate => t == s.(threads := s.threads[i := if s.ready == 2 then Entered else Refused])
       case Entered => t == s
       case Refused => t == s.(threads := s.threads[i := Gate])
  }

  ghost predicate Init(c: Setup, s: State) {
    s.ready == 0 && |s.slots| == |c.addends| && forall i :: 0 <= i < |s.threads| ==>
        s.threads[i].Start? || s.threads[i].Gate?
  }

  /** The arena is usable: an aligned base inside a real allocation, and every slot relocated to it. */
  ghost predicate Complete(c: Setup, s: State)
    requires ArenaOk(c.arena)
  {
    && (exists x :: Granted(c.arena, x) && Fits(c.arena, x, s.base))
    && |s.slots| == |c.addends|
    && forall k :: 0 <= k < |s.slots| ==> s.slots[k] == (s.base + c.addends[k]) % Pow2(c.arena.addressBits)
  }

  /** What an owner has done so far. */
  ghost predicate OwnerOk(c: Setup, s: State, t: Thread)
    requires ArenaOk(c.arena)
  {
    match t
    case StoreBase(x) => Granted(c.arena, x)
    case Relocate(x, k) =>
      && Granted(c.arena, x) && s.base == Base(c.arena, x) && k <= |s.slots| == |c.addends|
      && forall j :: 0 <= j < k ==> s.slots[j] == Relocated(c, s.base, j)
    case _ => true
  }

  ghost predicate Inv(c: Setup, s: State)
    requires ArenaOk(c.arena)
  {
    && s.ready <= 2 && |s.slots| == |c.addends|
    && (forall i :: 0 <= i < |s.threads| && Owner(s.threads[i]) ==> s.ready == 1 && OwnerOk(c, s, s.threads[i]))
    && (s.ready == 1 ==> exists i :: 0 <= i < |s.threads| && Owner(s.threads[i]))
    && (forall i, j :: 0 <= i < j < |s.threads| ==> !(Owner(s.threads[i]) && Owner(s.threads[j])))
    && (s.ready == 2 ==> Complete(c, s))
    && (forall i :: 0 <= i < |s.threads| && (s.threads[i] == Finished(0) || s.threads[i].Entered?) ==> s.ready == 2)
  }

  lemma InitHolds(c: Setup, s: State)
    requires ArenaOk(c.arena) && Init(c, s)
    ensures Inv(c, s)
  {
  }

  ghost predicate OneOwner(s: State) {
    && (s.ready == 1 ==> exists i :: 0 <= i < |s.threads| && Owner(s.threads[i]))
    && (forall i :: 0 <= i < |s.threads| && Owner(s.threads[i]) ==> s.ready == 1)
    && (forall i, j :: 0 <= i < j < |s.threads| ==> !(Owner(s.threads[i]) && Owner(s.threads[j])))
  }

  /** Between claim and publication there is exactly one owner. */
  lemma StepKeepsOwner(c: Setup, s: State, i: nat, grant: Option<nat>, t: State)
    requires ArenaOk(c.arena) && OneOwner(s) && Next(c, s, i, grant, t)
    ensures OneOwner(t)
  {
    hide Granted, Relocated, Base;
    if t.ready == 1 {
      if Owner(t.threads[i]) {
      } else {
        var o :| 0 <= o < |s.threads| && Owner(s.threads[o]);
        assert t.threads[o] == s.threads[o];
      }
    }
  }

  /** The owner's own progress, from the state before its step. */
  lemma StepKeepsProgress(c: Setup, s: State, i: nat, grant: Option<nat>, t: State)
    requires ArenaOk(c.arena) && Inv(c, s) && Next(c, s, i, grant, t)
    ensures |t.slots| == |c.addends| && forall j :: 0 <= j < |t.threads| && Owner(t.threads[j]) ==>
        OwnerOk(c, t, t.threads[j])
  {
    hide Granted, Relocated, Base, Complete;
    forall j | 0 <= j < |t.threads| && Owner(t.threads[j]) ensures OwnerOk(c, t, t.threads[j]) {
      if j != i {
        assert t.threads[j] == s.threads[j];
        assert OwnerOk(c, s, s.threads[j]);
      }
    }
  }

  lemma StepKeepsPublished(c: Setup, s: State, i: nat, grant: Option<nat>, t: State)
    requires ArenaOk(c.arena) && Inv(c, s) && Next(c, s, i, grant, t)
    ensures s.ready == 2 ==> t.ready == 2 && t.base == s.base && t.slots == s.slots
    ensures t.ready == 2 ==> Complete(c, t)
  {
    var th := s.threads[i];
    if s.ready != 2 && t.ready == 2 {
      assert OwnerOk(c, s, th);
      BaseFits(c.arena, th.allocation);
    }
  }

  /** Every step keeps the invariant, and nothing changes once the arena is published. */
  lemma StepKeeps(c: Setup, s: State, i: nat, grant: Option<nat>, t: State)
    requires ArenaOk(c.arena) && Inv(c, s) && Next(c, s, i, grant, t)
    ensures Inv(c, t)
    ensures s.ready == 2 ==> t.ready == 2 && t.base == s.base && t.slots == s.slots
  {
    StepKeepsOwner(c, s, i, grant, t);
    StepKeepsProgress(c, s, i, grant, t);
    StepKeepsPublished(c, s, i, grant, t);
    hide Granted, Relocated, Base, Complete, OwnerOk;
  }

  // ----- runs -----

  ghost predicate IsRun(c: Setup, states: seq<State>, movers: seq<nat>, grants: seq<Option<nat>>)
    requires ArenaOk(c.arena)
  {
    && |states| == |movers| + 1 && |grants| == |movers| && Init(c, states[0])
    && forall k :: 0 <= k < |movers| ==> Next(c, states[k], movers[k], grants[k], states[k + 1])
  }

  lemma {:induction false} RunKeeps(c: Setup, states: seq<State>, movers: seq<nat>, grants: seq<Option<nat>>, n: nat)
    requires ArenaOk(c.arena) && IsRun(c, states, movers, grants) && n < |states|
    ensures Inv(c, states[n])
  {
    if n == 0 {
      InitHolds(c, states[0]);
    } else {
      RunKeeps(c, states, movers, grants, n - 1);
      StepKeeps(c, states[n - 1], movers[n - 1], grants[n - 1], states[n - 1 + 1]);
    }
  }

  /** In every run, once published the arena never changes again. */
  lemma {:induction false} PublishedForever(c: Setup, states: seq<State>, movers: seq<nat>, grants: seq<Option<nat>>,
                                            a: nat, b: nat)
    requires ArenaOk(c.arena) && IsRun(c, states, movers, grants) && a <= b < |states| && states[a].ready == 2
    ensures states[b].ready == 2 && states[b].base == states[a].base && states[b].slots == states[a].slots
    decreases b
  {
    if a < b {
      PublishedForever(c, states, movers, grants, a, b - 1);
      RunKeeps(c, states, movers, grants, b - 1);
      StepKeeps(c, states[b - 1], movers[b - 1], grants[b - 1], states[b - 1 + 1]);
    }
  }

  /** In every run at most one step publishes, and only then does a call or a gate succeed. */
  lemma PublishedOnce(c: Setup, states: seq<State>, movers: seq<nat>, grants: seq<Option<nat>>, a: nat, b: nat)
    requires ArenaOk(c.arena) && IsRun(c, states, movers, grants) && a < b < |movers|
    requires states[a].ready != 2 && states[a + 1].ready == 2
    ensures !(states[b].ready != 2 && states[b + 1].ready == 2)
  {
    PublishedForever(c, states, movers, grants, a + 1, b);
  }

  /** A call that returned 0, or an entry that was let in, finds the whole arena ready then and ever after. */
  lemma SuccessMeansComplete(c: Setup, states: seq<State>, movers: seq<nat>, grants: seq<Option<nat>>, n: nat, m: nat,
                             i: nat)
    requires ArenaOk(c.arena) && IsRun(c, states, movers, grants) && n <= m < |states| && i < |states[n].threads|
    requires states[n].threads[i] == Finished(0) || states[n].threads[i].Entered?
    ensures Complete(c, states[m]) && states[m].base == states[n].base && states[m].slots == states[n].slots
  {
    RunKeeps(c, states, movers, grants, n);
    PublishedForever(c, states, movers, grants, n, m);
    RunKeeps(c, states, movers, grants, m);
  }

  /** With the arena unclaimed nobody owns it, and only a claim ends that. */
  lemma StaysClaimable(c: Setup, s: State, i: nat, grant: Option<nat>, t: State)
    requires ArenaOk(c.arena) && Inv(c, s) && Next(c, s, i, grant, t) && s.ready == 0
    ensures if s.threads[i].Claim? then t.ready == 1 && t.threads[i] == Allocate else t.ready == 0
  {
    hide Granted, Relocated, Base, Complete, OwnerOk;
    assert !Owner(s.threads[i]);
  }

  /** In every run a failed allocation returns ENOMEM and leaves the arena unowned and claimable until
      the next claim, whoever makes it, which wins. */
  lemma {:induction false} FailureIsRetryable(c: Setup, states: seq<State>, movers: seq<nat>, grants: seq<Option<nat>>,
                                              a: nat, b: nat)
    requires ArenaOk(c.arena) && IsRun(c, states, movers, grants) && a < b <= |movers|
    requires movers[a] < |states[a].threads| && states[a].threads[movers[a]].Fail?
    requires forall k :: a < k < b ==> movers[k] < |states[k].threads| && !states[k].threads[movers[k]].Claim?
    ensures states[a + 1].threads[movers[a]] == Finished(ENOMEM)
    ensures states[b].ready == 0 && forall k :: 0 <= k < |states[b].threads| ==> !Owner(states[b].threads[k])
    ensures b < |movers| ==> movers[b] < |states[b].threads| == |states[b + 1].threads|
    ensures b < |movers| && states[b].threads[movers[b]].Claim? ==>
              states[b + 1].ready == 1 && states[b + 1].threads[movers[b]] == Allocate
    decreases b
  {
    hide Granted, Relocated, Base, Complete, OwnerOk;
    if a + 1 < b {
      FailureIsRetryable(c, states, movers, grants, a, b - 1);
      RunKeeps(c, states, movers, grants, b - 1);
      StaysClaimable(c, states[b - 1], movers[b - 1], grants[b - 1], states[b - 1 + 1]);
    } else {
      assert Next(c, states[a], movers[a], grants[a], states[a + 1]);
    }
    RunKeeps(c, states, movers, grants, b);
    if b < |movers| {
      assert Next(c, states[b], movers[b], grants[b], states[b + 1]);
      StaysClaimable(c, states[b], movers[b], grants[b], states[b + 1]);
    }
  }

  /** The call that publishes the arena returns 0; from then on every call returns 0 and every entry is let in.
      While another call owns it a claim returns -11, and until it is published every entry is refused. */
  lemma GateFollowsReady(c: Setup, states: seq<State>, movers: seq<nat>, grants: seq<Option<nat>>, a: nat, n: nat)
    requires ArenaOk(c.arena) && IsRun(c, states, movers, grants) && a <= n < |movers|
    ensures movers[n] < |states[n].threads| == |states[n + 1].threads|
    ensures var was, now := states[n].threads[movers[n]], states[n + 1].threads[movers[n]];
            && (states[a].ready == 2 && (was.Start? || was.Claim?) ==> now == Finished(0))
            && (states[a].ready == 2 && was.Gate? ==> now == Entered)
            && (states[n].ready != 2 && was.Gate? ==> now == Refused)
            && (was.Claim? && (exists o :: 0 <= o < |states[n].threads| && Owner(states[n].threads[o])) ==>
                now == Finished(-11))
            && (states[n].ready != 2 && states[n + 1].ready == 2 ==> now == Finished(0))
            && (was.Allocate? && grants[n].None? ==> now == Fail)
            && (was.Fail? ==> now == Finished(-12))
  {
    if states[a].ready == 2 { PublishedForever(c, states, movers, grants, a, n); }
    RunKeeps(c, states, movers, grants, n);
    assert Next(c, states[n], movers[n], grants[n], states[n + 1]);
    hide Granted, Relocated, Base, Complete, OwnerOk;
  }
}
