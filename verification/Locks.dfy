/**
 Resource locks on top of sleep and wakeup (kernel/src/proc/lock.c:12-44),
 as runs of the steps that the process on the CPU can take.
 */
module Locks {
  import opened Procs
  import PT = ProcTable

  /** The `locked` and `wanted` flags of every resource, and who got out of lock_resource for it. */
  datatype Sys = Sys(w: World, locked: set<nat>, wanted: set<nat>, holds: set<Hold>)

  datatype Hold = Hold(resource: nat, owner: nat)

  /** What the current process does next; `Lock` is one turn of the loop in lock_resource. */
  datatype Op =
    | Lock(resource: nat) | Unlock(resource: nat) | SleepOn(addr: nat, uninterruptible: bool)
    | WakeOn(addr: nat) | Schedule

  ghost function Step(s: Sys, op: Op): Sys
    requires Inv(s.w)
  {
    match op
    case Lock(r) =>
      if r in s.locked then s.(wanted := s.wanted + {r}, w := Sleep(s.w, r, true))
      else s.(locked := s.locked + {r}, holds := s.holds + {Hold(r, s.w.current)})
    case Unlock(r) =>
      var s1 := s.(locked := s.locked - {r}, holds := s.holds - {Hold(r, s.w.current)});
      if r in s.wanted then s1.(wanted := s.wanted - {r}, w := Wakeup(s.w, r)) else s1
    case SleepOn(a, u) => s.(w := Sleep(s.w, a, u))
    case WakeOn(a) => s.(w := Wakeup(s.w, a))
    case Schedule => s.(w := Sched(s.w))
  }

  /** Only the holder unlocks, and other sleeps do not use the address of a resource. */
  ghost predicate Legal(s: Sys, op: Op, resources: set<nat>) {
    match op
    case Lock(r) => r in resources
    case Unlock(r) => Hold(r, s.w.current) in s.holds
    case SleepOn(a, _) => a !in resources
    case _ => true
  }

  /** A resource is locked iff somebody holds it, and then exactly one process does. */
  ghost predicate Exclusive(s: Sys) {
    && (forall h :: h in s.holds ==> h.resource in s.locked)
    && (forall r :: r in s.locked ==> exists h :: h in s.holds && h.resource == r)
    && (forall h, k :: h in s.holds && k in s.holds && h.resource == k.resource ==> h == k)
  }

  ghost predicate Waits(w: World, p: nat, r: nat) {
    p in w.state && p in w.sleepAddr && w.state[p] == Sleeping && w.sleepAddr[p] == r
  }

  /** Whoever sleeps on a resource will be woken: it is locked, and its flag tells the holder to wake. */
  ghost predicate NobodyLost(s: Sys, resources: set<nat>) {
    forall p, r :: r in resources && Waits(s.w, p, r) ==> r in s.locked && r in s.wanted
  }

  /** The wakeup for `r` reaches every process asleep on it. */
  ghost predicate Reaches(w: World, r: nat)
    requires Inv(w)
  {
    NoNeighbours(Rest(w.buckets[Hash(r)], w.sleepAddr, r), w.sleepAddr, r)
  }

  lemma SleepFacts(w: World, a: nat, u: bool)
    requires Inv(w)
    ensures Inv(Sleep(w, a, u))
    ensures forall p, r :: Waits(Sleep(w, a, u), p, r) ==> Waits(w, p, r) || r == a
  {
    if w.state[w.current] != Sleeping {
      SleepingInv(w, a, u);
      SchedKeepsInv(PutToSleep(w, a, u));
      hide Inv, Sched;
    }
  }

  lemma WakeupFacts(w: World, a: nat)
    requires Inv(w)
    ensures Inv(Wakeup(w, a)) && Wakeup(w, a).current == w.current
    ensures forall p, r :: Waits(Wakeup(w, a), p, r) ==> Waits(w, p, r)
    ensures (forall p :: !Waits(Wakeup(w, a), p, a)) <==> Reaches(w, a)
  {
    WakeupKeepsInv(w, a);
    WakeupIsCompleteIff(w, a);
    WakeupRunsOrKeeps(w, a);
    hide Inv, Wakeup, NoNeighbours, Rest;
    var r := Wakeup(w, a);
    if forall p :: !Waits(r, p, a) {
      forall p | p in w.state && w.state[p] == Sleeping && w.sleepAddr[p] == a ensures r.state[p] == Running {
        assert !Waits(r, p, a);
      }
    }
  }

  lemma StepKeepsLists(s: Sys, op: Op)
    requires Inv(s.w)
    ensures Inv(Step(s, op).w)
  {
    hide Inv, Sleep, Wakeup, Sched;
    match op
    case Lock(r) => SleepFacts(s.w, r, true);
    case Unlock(r) => WakeupFacts(s.w, r);
    case SleepOn(a, u) => SleepFacts(s.w, a, u);
    case WakeOn(a) => WakeupFacts(s.w, a);
    case Schedule => SchedKeepsInv(s.w);
  }

  lemma StepKeepsExclusion(s: Sys, op: Op, resources: set<nat>)
    requires Inv(s.w) && Exclusive(s) && Legal(s, op, resources)
    ensures Exclusive(Step(s, op))
  {
    hide Inv, Sleep, Wakeup, Sched;
    var s' := Step(s, op);
    match op
    case Lock(r) =>
      forall q | q in s'.locked ensures exists h :: h in s'.holds && h.resource == q {
        if q in s.locked {
          var h :| h in s.holds && h.resource == q;
          assert h in s'.holds;
        } else {
          assert Hold(r, s.w.current) in s'.holds;
        }
      }
    case Unlock(r) =>
      forall q | q in s'.locked ensures exists h :: h in s'.holds && h.resource == q {
        var h :| h in s.holds && h.resource == q;
        assert h in s'.holds;
      }
    case _ =>
  }

  /** The only step that can lose a waiter is an unlock whose wakeup does not reach all of them. */
  lemma StepLosesNobodyIff(s: Sys, op: Op, resources: set<nat>)
    requires Inv(s.w) && Legal(s, op, resources) && NobodyLost(s, resources)
    requires op.Unlock? ==> op.resource in resources
    ensures NobodyLost(Step(s, op), resources) <==>
      (op.Unlock? && op.resource in s.wanted ==> Reaches(s.w, op.resource))
  {
    hide Inv, Sleep, Wakeup, Sched, Reaches, Waits;
    var s' := Step(s, op);
    match op
    case Lock(r) => SleepFacts(s.w, r, true);
    case Unlock(r) =>
      WakeupFacts(s.w, r);
      if NobodyLost(s', resources) && r in s.wanted {
        forall p ensures !Waits(s'.w, p, r) {
        }
      }
    case SleepOn(a, u) => SleepFacts(s.w, a, u);
    case WakeOn(a) => WakeupFacts(s.w, a);
    case Schedule =>
      SchedKeepsInv(s.w);
      WaitsOnly(s.w, Sched(s.w));
  }

  lemma WaitsOnly(w: World, r: World)
    requires r.state == w.state && r.sleepAddr == w.sleepAddr
    ensures forall p, a :: Waits(r, p, a) ==> Waits(w, p, a)
  {
  }

  // ---------- the window in lock_resource ----------

  lemma SleeperWaits(w: World, a: nat, u: bool)
    requires Inv(w) && w.state[w.current] != Sleeping
    ensures Inv(Sleep(w, a, u)) && Waits(Sleep(w, a, u), w.current, a)
    ensures forall p, r :: Waits(w, p, r) ==> Waits(Sleep(w, a, u), p, r)
  {
    SleepingInv(w, a, u);
    SchedKeepsInv(PutToSleep(w, a, u));
    PutToSleepFacts(w, a, u);
    OthersWait(w, PutToSleep(w, a, u), a);
    hide Inv, Sched, PutToSleep;
  }

  lemma OthersWait(w: World, r: World, a: nat)
    requires WellFormed(w) && w.state[w.current] != Sleeping
    requires r.state == w.state[w.current := Sleeping] && r.sleepAddr == w.sleepAddr[w.current := a]
    ensures Waits(r, w.current, a) && forall p, x :: Waits(w, p, x) ==> Waits(r, p, x)
  {
  }

  /**
   Interrupts are on between setting `wanted` and sleeping (lock.c:21-23). The sleep
   loses nobody iff the resource is still locked and wanted when it is reached.
   */
  lemma WindowLosesNobodyIff(s: Sys, r: nat, resources: set<nat>)
    requires Inv(s.w) && r in resources && NobodyLost(s, resources) && s.w.state[s.w.current] != Sleeping
    ensures NobodyLost(Step(s, SleepOn(r, true)), resources) <==> r in s.locked && r in s.wanted
  {
    hide Inv, Sleep, Waits;
    SleeperWaits(s.w, r, true);
    SleepFacts(s.w, r, true);
  }

  /** An unlock inside the window leaves the process asleep on a free resource that nobody will wake it for. */
  lemma UnlockInWindowLoses(s: Sys, r: nat, resources: set<nat>)
    requires Inv(s.w) && r in resources && r in s.locked && s.w.state[s.w.current] != Sleeping
    ensures var s1 := Step(s.(wanted := s.wanted + {r}), Unlock(r));
      && Inv(s1.w)
      && var s2 := Step(s1, SleepOn(r, true));
         Waits(s2.w, s.w.current, r) && r !in s2.locked && r !in s2.wanted && !NobodyLost(s2, resources)
  {
    hide Inv, Sleep, Wakeup, Waits;
    WakeupFacts(s.w, r);
    WakeupRunsOrKeeps(s.w, r);
    CurrentKnown(s.w);
    SleeperWaits(Wakeup(s.w, r), r, true);
  }

  lemma CurrentKnown(w: World)
    requires Inv(w)
    ensures w.current in w.state
  {
  }

  // ---------- runs ----------

  ghost function Run(s: Sys, ops: seq<Op>): (r: Sys)
    requires Inv(s.w)
    ensures Inv(r.w)
    decreases |ops|
  {
    if ops == [] then s
    else
      StepKeepsLists(s, ops[0]);
      Run(Step(s, ops[0]), ops[1..])
  }

  ghost predicate LegalRun(s: Sys, ops: seq<Op>, resources: set<nat>)
    requires Inv(s.w)
    decreases |ops|
  {
    ops == [] ||
    (StepKeepsLists(s, ops[0]);
     Legal(s, ops[0], resources) && LegalRun(Step(s, ops[0]), ops[1..], resources))
  }

  /** Every unlock of the run that wakes anybody wakes everybody. */
  ghost predicate EveryUnlockReaches(s: Sys, ops: seq<Op>)
    requires Inv(s.w)
    decreases |ops|
  {
    ops == [] ||
    (StepKeepsLists(s, ops[0]);
     && (ops[0].Unlock? && ops[0].resource in s.wanted ==> Reaches(s.w, ops[0].resource))
     && EveryUnlockReaches(Step(s, ops[0]), ops[1..]))
  }

  /** At most one process at a time is between lock_resource and unlock_resource of one resource. */
  lemma {:induction false} EveryRunExcludes(s: Sys, ops: seq<Op>, resources: set<nat>)
    requires Inv(s.w) && Exclusive(s) && LegalRun(s, ops, resources)
    ensures Exclusive(Run(s, ops))
    decreases |ops|
  {
    hide Inv, Exclusive, Step, Legal;
    if ops != [] {
      StepKeepsLists(s, ops[0]);
      StepKeepsExclusion(s, ops[0], resources);
      EveryRunExcludes(Step(s, ops[0]), ops[1..], resources);
    }
  }

  ghost predicate HeldAreResources(s: Sys, resources: set<nat>) {
    forall h :: h in s.holds ==> h.resource in resources
  }

  lemma HoldsOnlyResources(s: Sys, op: Op, resources: set<nat>)
    requires Inv(s.w) && HeldAreResources(s, resources) && Legal(s, op, resources)
    ensures HeldAreResources(Step(s, op), resources) && (op.Unlock? ==> op.resource in resources)
  {
    hide Inv, Sleep, Wakeup, Sched;
  }

  /** No waiter is ever lost in a run whose wakeups are complete. */
  lemma {:induction false} EveryRunLosesNobody(s: Sys, ops: seq<Op>, resources: set<nat>)
    requires Inv(s.w) && HeldAreResources(s, resources) && NobodyLost(s, resources)
    requires LegalRun(s, ops, resources) && EveryUnlockReaches(s, ops)
    ensures NobodyLost(Run(s, ops), resources)
    decreases |ops|
  {
    hide Inv, NobodyLost, HeldAreResources, Step, Legal, Reaches;
    if ops != [] {
      StepKeepsLists(s, ops[0]);
      HoldsOnlyResources(s, ops[0], resources);
      StepLosesNobodyIff(s, ops[0], resources);
      EveryRunLosesNobody(Step(s, ops[0]), ops[1..], resources);
    }
  }

  /** A bucket whose sleepers all wait for the same resource is woken completely. */
  lemma {:induction false} OneAddressPerBucketReaches(xs: seq<nat>, sleepAddr: map<nat, nat>, r: nat)
    requires forall p :: p in xs ==> On(p, sleepAddr, r)
    ensures NoNeighbours(Rest(xs, sleepAddr, r), sleepAddr, r)
  {
    if xs != [] { OneAddressPerBucketReaches(xs[1..], sleepAddr, r); }
  }

  /**
   With `o` asleep on another address in front of them, the second of two waiters is left asleep on a
   free resource.
   */
  lemma SecondWaiterIsLost(s: Sys, o: nat, p: nat, q: nat, r: nat, resources: set<nat>)
    requires Inv(s.w) && r in resources && r in s.wanted
    requires s.w.buckets[Hash(r)] == [o, p, q]
    requires Waits(s.w, p, r) && Waits(s.w, q, r) && !On(o, s.w.sleepAddr, r)
    ensures var s' := Step(s, Unlock(r));
      Waits(s'.w, q, r) && r !in s'.locked && r !in s'.wanted && !NobodyLost(s', resources)
  {
    var xs := s.w.buckets[Hash(r)];
    assert xs[1..] == [p, q];
    assert [p, q][2..] == [];
    assert Further([p, q], s.w.sleepAddr, r) == Scan([p], [q]);
    assert FromHead(xs, s.w.sleepAddr, r) == Scan([p], [o, q]);
    hide Inv, Further, FromHead, Wakeup;
    WakeupRunsOrKeeps(s.w, r);
  }

  const STATES: map<nat, ProcState> := map[1 := IdleState, 2 := Running, 3 := Sleeping, 4 := Sleeping, 5 := Sleeping]
  const ADDRESSES: map<nat, nat> := map[1 := 0, 2 := 0, 3 := 6, 4 := 6, 5 := 12]
  const TIMES: map<nat, int> := map[1 := 0, 2 := 1, 3 := 1, 4 := 1, 5 := 1]

  /** Process 2 holds resource 6, 3 and 4 wait for it, and 5 sleeps on address 12 in front of them. */
  function Crowded(): Sys {
    Sys(World(STATES, ADDRESSES, {3, 4}, TIMES, TIMES, [2], [[5, 4, 3], [], [], [], [], []], 2, 1, false),
        {6}, {6}, {Hold(6, 2)})
  }

  lemma CrowdedFields()
    ensures WellFormed(Crowded().w) && RunListMatches(Crowded().w.running, Crowded().w.state)
    ensures Exclusive(Crowded()) && HeldAreResources(Crowded(), {6}) && Hold(6, Crowded().w.current) in Crowded().holds
  {
    assert STATES.Keys == {1, 2, 3, 4, 5};
    assert ADDRESSES.Keys == {1, 2, 3, 4, 5};
    assert TIMES.Keys == {1, 2, 3, 4, 5};
    assert Hold(6, 2) in Crowded().holds;
  }

  lemma CrowdedBuckets()
    requires WellFormed(Crowded().w)
    ensures forall k :: 0 <= k < BUCKETS ==> BucketMatches(Crowded().w.buckets[k], STATES, ADDRESSES, k)
  {
    hide Complete;
    var buckets := Crowded().w.buckets;
    assert buckets[0] == [5, 4, 3];
    assert forall k :: 1 <= k < BUCKETS ==> buckets[k] == [];
  }

  lemma CrowdedWaiters()
    ensures Waits(Crowded().w, 3, 6) && Waits(Crowded().w, 4, 6) && !On(5, ADDRESSES, 6)
    ensures forall p, r :: r in {6} && Waits(Crowded().w, p, r) ==> r == 6
  {
  }

  /** So a waiter can be lost in a sound state, by an unlock of the holder. */
  lemma AWaiterIsLost()
    ensures Inv(Crowded().w) && Exclusive(Crowded()) && NobodyLost(Crowded(), {6}) && Legal(Crowded(), Unlock(6), {6})
    ensures !NobodyLost(Step(Crowded(), Unlock(6)), {6})
  {
    hide Waits, Exclusive, Complete, RunListMatches, BucketMatches, On;
    CrowdedFields();
    CrowdedBuckets();
    CrowdedWaiters();
    assert Inv(Crowded().w);
    SecondWaiterIsLost(Crowded(), 5, 4, 3, 6, {6});
  }

  /** The resources of a kernel with the process table they put sleepers in. */
  class Resources {
    const table: PT.Table
    var locked: set<nat>
    var wanted: set<nat>
    ghost var holds: set<Hold>

    ghost function Abs(): Sys
      reads this, table
    {
      Sys(table.Abs(), locked, wanted, holds)
    }

    ghost predicate Valid()
      reads this, table, table.sleepTable
    {
      table.Valid() && Inv(table.Abs())
    }

    constructor (t: PT.Table)
      requires t.Valid() && Inv(t.Abs())
      ensures Valid() && table == t && Abs() == Sys(t.Abs(), {}, {}, {})
    {
      table, locked, wanted, holds := t, {}, {}, {};
    }

    /** One turn of lock_resource: it has the lock now, or sleeps and takes another turn when it runs again. */
    method LockTurn(r: nat) returns (got: bool)
      requires Valid() && (r in locked ==> PT.SwitchEnds(table.Abs(), r, true))
      modifies this, table, table.sleepTable
      ensures Valid() && Abs() == Step(old(Abs()), Lock(r)) && got == (r !in old(locked))
    {
      hide Inv, Sleep;
      if r in locked {
        wanted := wanted + {r};
        SleepFacts(table.Abs(), r, true);
        var signum := table.SleepOn(r, false, 0, 0);
        return false;
      }
      locked := locked + {r};
      holds := holds + {Hold(r, table.current)};
      return true;
    }

    method UnlockResource(r: nat)
      requires Valid()
      modifies this, table, table.sleepTable
      ensures Valid() && Abs() == Step(old(Abs()), Unlock(r))
    {
      hide Inv, Wakeup;
      locked := locked - {r};
      holds := holds - {Hold(r, table.current)};
      if r in wanted {
        wanted := wanted - {r};
        WakeupFacts(table.Abs(), r);
        table.WakeupOn(r);
      }
    }
  }
}
