/**
 Run list, sleep table and scheduler as functions on abstract states
 (kernel/src/proc/proc.c, sleep.c and sched.c).
 */
module Procs {
  import opened Dll

  /** NUM_SLEEP_HASH_TABLE_BUCKETS: a tenth of 64 processes. */
  const BUCKETS: nat := 6

  datatype ProcState = Running | Sleeping | Zombley | Stopped | IdleState | Unused

  /**
   `running` and `buckets` list processes in list order; the maps give the fields
   of every process of the table.
   */
  datatype World = World(
    state: map<nat, ProcState>, sleepAddr: map<nat, nat>, uninterruptible: set<nat>,
    remaining: map<nat, int>, priority: map<nat, int>,
    running: seq<nat>, buckets: seq<seq<nat>>,
    current: nat, idle: nat, needsResched: bool)

  function Hash(addr: nat): nat { addr % BUCKETS }

  /** Every process has every field. */
  ghost predicate Complete(procs: set<nat>, sleepAddr: map<nat, nat>, remaining: map<nat, int>,
                           priority: map<nat, int>) {
    sleepAddr.Keys == procs && remaining.Keys == procs && priority.Keys == procs
  }

  ghost predicate WellFormed(w: World) {
    && |w.buckets| == BUCKETS && Complete(w.state.Keys, w.sleepAddr, w.remaining, w.priority)
    && w.current in w.state && w.idle in w.state && NULL !in w.state
  }

  /** On the run list iff running. */
  ghost predicate RunListMatches(running: seq<nat>, state: map<nat, ProcState>) {
    NoDup(running) && forall p :: p in running <==> p in state && state[p] == Running
  }

  /** In bucket `k` iff asleep on an address that hashes to `k`. */
  ghost predicate BucketMatches(bucket: seq<nat>, state: map<nat, ProcState>, sleepAddr: map<nat, nat>, k: nat)
    requires sleepAddr.Keys == state.Keys
  {
    NoDup(bucket) && forall p :: p in bucket <==> p in state && state[p] == Sleeping && Hash(sleepAddr[p]) == k
  }

  /** Lists and state flags agree: nobody is on two lists, and nobody sleeps outside the bucket of its address. */
  ghost predicate Inv(w: World) {
    && WellFormed(w)
    && RunListMatches(w.running, w.state)
    && forall k :: 0 <= k < BUCKETS ==> BucketMatches(w.buckets[k], w.state, w.sleepAddr, k)
  }

  // ---------- run list ----------

  function Runnable(w: World, p: nat): World
    requires p in w.state
  {
    if w.state[p] == Running then w
    else w.(running := [p] + w.running, state := w.state[p := Running])
  }

  function NotRunnable(w: World, p: nat, s: ProcState): World
    requires p in w.state
  {
    w.(running := Delete(w.running, p), state := w.state[p := s])
  }

  /** proc_runnable keeps the lists and states in step iff the process is not asleep. */
  lemma RunnableKeepsInvIff(w: World, p: nat)
    requires Inv(w) && p in w.state
    ensures Inv(Runnable(w, p)) <==> w.state[p] != Sleeping
  {
    var w' := Runnable(w, p);
    if w.state[p] == Sleeping {
      assert BucketMatches(w.buckets[Hash(w.sleepAddr[p])], w.state, w.sleepAddr, Hash(w.sleepAddr[p]));
      assert p in w'.buckets[Hash(w.sleepAddr[p])];
    } else if w.state[p] != Running {
      forall k | 0 <= k < BUCKETS ensures BucketMatches(w'.buckets[k], w'.state, w'.sleepAddr, k) {
        assert BucketMatches(w.buckets[k], w.state, w.sleepAddr, k);
      }
    }
  }

  /** proc_not_runnable keeps them iff neither the old nor the new state is one the lists track. */
  lemma NotRunnableKeepsInvIff(w: World, p: nat, s: ProcState)
    requires Inv(w) && p in w.state
    ensures Inv(NotRunnable(w, p, s)) <==> s != Running && (w.state[p] == Sleeping <==> s == Sleeping)
  {
    DeleteFacts(w.running, p);
    var w' := NotRunnable(w, p, s);
    var h := Hash(w.sleepAddr[p]);
    assert BucketMatches(w.buckets[h], w.state, w.sleepAddr, h);
    assert p in w.buckets[h] <==> w.state[p] == Sleeping;
    if w.state[p] == Sleeping <==> s == Sleeping {
      forall k | 0 <= k < BUCKETS ensures BucketMatches(w'.buckets[k], w'.state, w'.sleepAddr, k) {
        assert BucketMatches(w.buckets[k], w.state, w.sleepAddr, k);
      }
    } else {
      assert !BucketMatches(w'.buckets[h], w'.state, w'.sleepAddr, h);
    }
  }

  // ---------- scheduler ----------

  /** The largest of `value` over the list, -1 if there is none above that (sched.c:48-61). */
  function Best(xs: seq<nat>, value: map<nat, int>): int
    requires forall p :: p in xs ==> p in value
  {
    if xs == [] then -1
    else
      var rest := Best(xs[..|xs| - 1], value);
      if value[xs[|xs| - 1]] > rest then value[xs[|xs| - 1]] else rest
  }

  /** The process the scan ends with, `idle` if it finds none. */
  function Pick(xs: seq<nat>, value: map<nat, int>, idle: nat): nat
    requires forall p :: p in xs ==> p in value
  {
    if xs == [] then idle
    else
      var last, init := xs[|xs| - 1], xs[..|xs| - 1];
      if value[last] > Best(init, value) then last else Pick(init, value, idle)
  }

  /** `xs[i]` has the largest value and nobody before it has as much. */
  ghost predicate FirstBest(xs: seq<nat>, value: map<nat, int>, i: nat)
    requires forall p :: p in xs ==> p in value
  {
    && i < |xs|
    && (forall j :: 0 <= j < |xs| ==> value[xs[j]] <= value[xs[i]])
    && (forall j :: 0 <= j < i ==> value[xs[j]] < value[xs[i]])
  }

  /** The first process of maximal time wins; idle only if the list offers nothing above -1. */
  lemma {:induction false} PickIsFirstMaximal(xs: seq<nat>, value: map<nat, int>, idle: nat)
    requires forall p :: p in xs ==> p in value
    ensures forall i :: 0 <= i < |xs| ==> value[xs[i]] <= Best(xs, value)
    ensures Best(xs, value) >= -1
    ensures Best(xs, value) == -1 ==> Pick(xs, value, idle) == idle
    ensures Best(xs, value) > -1 ==> Pick(xs, value, idle) in xs && value[Pick(xs, value, idle)] == Best(xs, value)
    ensures Best(xs, value) > -1 ==>
      exists i :: 0 <= i < |xs| && Pick(xs, value, idle) == xs[i] && FirstBest(xs, value, i)
  {
    if xs != [] {
      var last, init := xs[|xs| - 1], xs[..|xs| - 1];
      assert forall j :: 0 <= j < |init| ==> xs[j] == init[j];
      PickIsFirstMaximal(init, value, idle);
      if value[last] > Best(init, value) {
        forall j | 0 <= j < |xs| - 1 ensures value[xs[j]] < value[last] {
          assert value[init[j]] <= Best(init, value);
        }
        assert FirstBest(xs, value, |xs| - 1);
      } else if Best(init, value) > -1 {
        var i :| 0 <= i < |init| && Pick(init, value, idle) == init[i] && FirstBest(init, value, i);
        assert xs[i] == init[i] && FirstBest(xs, value, i);
      }
    }
  }

  function Recharge(w: World): World
    requires forall p :: p in w.running ==> p in w.priority
  {
    w.(remaining := map p | p in w.remaining :: if p in w.running then w.priority[p] else w.remaining[p])
  }

  ghost predicate KeepsSlice(w: World)
    requires WellFormed(w)
  {
    !w.needsResched && w.state[w.current] == Running && w.remaining[w.current] > 0
  }

  /** sched_run: at most one recharge, then the pick becomes current. */
  ghost function Sched(w: World): World
    requires Inv(w)
  {
    if KeepsSlice(w) then w
    else
      var w1 := w.(needsResched := false);
      var w2 := if Best(w1.running, w1.remaining) == 0 then Recharge(w1) else w1;
      w2.(current := Pick(w2.running, w2.remaining, w2.idle))
  }

  /** The scan-and-recharge loop ends: someone has time left, or the recharge gives someone some. */
  ghost predicate SchedEnds(w: World)
    requires Inv(w)
  {
    KeepsSlice(w) || Best(w.running, w.remaining) != 0 || Best(w.running, w.priority) != 0
  }

  lemma {:induction false} BestDependsOnListed(xs: seq<nat>, v: map<nat, int>, v': map<nat, int>)
    requires forall p :: p in xs ==> p in v && p in v' && v[p] == v'[p]
    ensures Best(xs, v) == Best(xs, v')
  {
    if xs != [] { BestDependsOnListed(xs[..|xs| - 1], v, v'); }
  }

  lemma RechargedBest(w: World)
    requires Inv(w)
    ensures Best(w.running, Recharge(w).remaining) == Best(w.running, w.priority)
  {
    BestDependsOnListed(w.running, Recharge(w).remaining, w.priority);
  }

  ghost predicate NonNegativeTimes(w: World)
    requires Inv(w)
  {
    forall p :: p in w.running ==> w.remaining[p] >= 0 && w.priority[p] >= 0
  }

  /**
   Unless the current process keeps its slice, one recharge at most makes someone
   eligible, it happens only when nobody runnable has time left, and the first
   runnable process of maximal time runs next - idle iff nobody is runnable.
   */
  lemma SchedMeetsSpec(w: World)
    requires Inv(w) && SchedEnds(w) && NonNegativeTimes(w)
    ensures Inv(Sched(w)) && Sched(w).running == w.running && Sched(w).state == w.state
    ensures !KeepsSlice(w) ==> var r := Sched(w);
      && (r.remaining != w.remaining ==> forall p :: p in w.running ==> w.remaining[p] == 0)
      && (w.running == [] ==> r.current == w.idle)
      && (w.running != [] ==>
            exists i :: 0 <= i < |w.running| && r.current == w.running[i] && FirstBest(w.running, r.remaining, i))
      && (w.running != [] ==> r.remaining[r.current] > 0)
  {
    SchedKeepsInv(w);
    if !KeepsSlice(w) {
      RechargedBest(w);
      BestBounds(w.running, w.remaining, w.idle);
      PickIsFirstMaximal(w.running, Sched(w).remaining, w.idle);
      if w.running != [] {
        assert w.running[0] in w.running;
      }
    }
  }

  lemma BestBounds(xs: seq<nat>, value: map<nat, int>, idle: nat)
    requires forall p :: p in xs ==> p in value
    ensures forall p :: p in xs ==> value[p] <= Best(xs, value)
    ensures Pick(xs, value, idle) in xs || Pick(xs, value, idle) == idle
  {
    PickIsFirstMaximal(xs, value, idle);
  }

  /** The state after `n` turns of the loop that found nobody. */
  function Recharges(w: World, n: nat): (r: World)
    requires forall p :: p in w.running ==> p in w.priority
    ensures r == w.(remaining := r.remaining) && r.remaining.Keys == w.remaining.Keys
  {
    if n == 0 then w else Recharge(Recharges(w, n - 1))
  }

  /**
   The loop comes to an end iff some turn finds a largest time other than 0; from the first recharge on
   every turn finds the same state.
   */
  lemma {:induction false} SchedSpins(w: World, n: nat)
    requires Inv(w)
    ensures n > 0 ==> Recharges(w, n) == Recharge(w)
    ensures !SchedEnds(w) ==> Best(w.running, Recharges(w, n).remaining) == 0
  {
    hide Best;
    if n > 0 {
      SchedSpins(w, n - 1);
      RechargedBest(w);
      RechargeTwice(w);
    }
  }

  lemma RechargeTwice(w: World)
    requires Inv(w)
    ensures Recharge(Recharge(w)) == Recharge(w)
  {
    assert Recharge(Recharge(w)).remaining == Recharge(w).remaining;
  }

  lemma SchedEndsIffATurnEnds(w: World)
    requires Inv(w)
    ensures SchedEnds(w) <==> KeepsSlice(w) || exists n: nat :: Best(w.running, Recharges(w, n).remaining) != 0
  {
    hide Best;
    if !SchedEnds(w) {
      forall n: nat ensures Best(w.running, Recharges(w, n).remaining) == 0 {
        SchedSpins(w, n);
      }
    } else {
      RechargedBest(w);
      SchedSpins(w, 1);
      assert Recharges(w, 0) == w;
    }
  }

  /** Process 2 has used up its slice, and its priority is what an unassigned field holds. */
  function Spent(): World {
    World(map[1 := IdleState, 2 := Running], map[1 := 0, 2 := 0], {}, map[1 := 0, 2 := 0], map[1 := 0, 2 := 0],
          [2], [[], [], [], [], [], []], 2, 1, false)
  }

  lemma ASchedulerSpins(n: nat)
    ensures Inv(Spent()) && !KeepsSlice(Spent()) && Best(Spent().running, Recharges(Spent(), n).remaining) == 0
  {
    var w := Spent();
    assert RunListMatches(w.running, w.state);
    assert Inv(w);
    assert [2][..1 - 1] == [];
    assert Best([2], w.remaining) == 0 && Best([2], w.priority) == 0;
    SchedSpins(w, n);
  }

  /**
   With non-negative times the scheduler comes back iff somebody runnable has time left or a positive
   priority, or nobody is runnable.
   */
  lemma SchedEndsIff(w: World)
    requires Inv(w) && NonNegativeTimes(w)
    ensures SchedEnds(w) <==>
      KeepsSlice(w) || w.running == [] || exists p :: p in w.running && (w.remaining[p] > 0 || w.priority[p] > 0)
  {
    PickIsFirstMaximal(w.running, w.remaining, w.idle);
    PickIsFirstMaximal(w.running, w.priority, w.idle);
    BestBounds(w.running, w.remaining, w.idle);
    BestBounds(w.running, w.priority, w.idle);
    if w.running != [] {
      assert w.running[0] in w.running;
    }
    hide Inv, Best, Pick, FirstBest;
  }

  /** The time of everybody runnable is used up, and it is not negative for all of them. */
  ghost predicate UsedUp(w: World)
    requires forall p :: p in w.running ==> p in w.remaining
  {
    (forall p :: p in w.running ==> w.remaining[p] <= 0) && exists p :: p in w.running && w.remaining[p] == 0
  }

  /**
   A running process that has time left and is not to be rescheduled goes on. Otherwise
   the resched flag is taken down, and if everybody's time is used up each runnable
   process, and no other, gets its priority as its time.
   */
  lemma SchedDoes(w: World)
    requires Inv(w)
    ensures var r := Sched(w);
      if !w.needsResched && w.state[w.current] == Running && w.remaining[w.current] > 0 then r == w
      else
        && r == w.(needsResched := false, remaining := r.remaining, current := r.current)
        && r.remaining.Keys == w.remaining.Keys
        && forall p :: p in w.remaining ==>
             r.remaining[p] == if UsedUp(w) && p in w.running then w.priority[p] else w.remaining[p]
  {
    hide Best, Pick;
    BestZeroIff(w.running, w.remaining);
  }

  lemma {:induction false} BestZeroIff(xs: seq<nat>, value: map<nat, int>)
    requires forall p :: p in xs ==> p in value
    ensures Best(xs, value) == 0 <==>
      (forall p :: p in xs ==> value[p] <= 0) && exists p :: p in xs && value[p] == 0
    ensures Best(xs, value) == -1 <==> forall p :: p in xs ==> value[p] < 0
    ensures Best(xs, value) >= -1
  {
    if xs != [] {
      var init, last := xs[..|xs| - 1], xs[|xs| - 1];
      assert xs == init + [last];
      BestZeroIff(init, value);
      assert forall p :: p in xs <==> p in init || p == last;
    }
  }

  // ---------- sleep ----------

  /** sleep up to the switch away (sleep.c:41-67), for a caller no signal interrupts. */
  ghost function Sleep(w: World, addr: nat, uninterruptible: bool): World
    requires Inv(w)
  {
    if w.state[w.current] == Sleeping then w
    else
      SleepingInv(w, addr, uninterruptible);
      Sched(PutToSleep(w, addr, uninterruptible))
  }

  function PutToSleep(w: World, addr: nat, uninterruptible: bool): World
    requires |w.buckets| == BUCKETS && w.current in w.state
  {
    var k, p := Hash(addr), w.current;
    var w1 := w.(buckets := w.buckets[k := [p] + w.buckets[k]], sleepAddr := w.sleepAddr[p := addr],
                 uninterruptible := if uninterruptible then w.uninterruptible + {p} else w.uninterruptible);
    NotRunnable(w1, p, Sleeping)
  }

  /**
   Going to sleep: first in the bucket numbered by the address modulo 6, off the run
   list, marked if uninterruptible.
   */
  lemma SleeperBedded(w: World, addr: nat, uninterruptible: bool)
    requires Inv(w)
    ensures var r, p := PutToSleep(w, addr, uninterruptible), w.current;
      && r.state == w.state[p := Sleeping] && r.sleepAddr == w.sleepAddr[p := addr]
      && r.uninterruptible == (if uninterruptible then w.uninterruptible + {p} else w.uninterruptible)
      && r.buckets == w.buckets[addr % 6 := [p] + w.buckets[addr % 6]] && r.running == Delete(w.running, p)
      && r.remaining == w.remaining && r.priority == w.priority && r.current == p && r.idle == w.idle
      && r.needsResched == w.needsResched
  {
  }

  lemma SleepingInv(w: World, addr: nat, uninterruptible: bool)
    requires Inv(w) && w.state[w.current] != Sleeping
    ensures Inv(PutToSleep(w, addr, uninterruptible))
  {
    DeleteFacts(w.running, w.current);
    var w', k, p := PutToSleep(w, addr, uninterruptible), Hash(addr), w.current;
    forall j | 0 <= j < BUCKETS ensures BucketMatches(w'.buckets[j], w'.state, w'.sleepAddr, j) {
      assert BucketMatches(w.buckets[j], w.state, w.sleepAddr, j);
      assert p !in w.buckets[j];
      assert w'.buckets[j] == if j == k then [p] + w.buckets[j] else w.buckets[j];
    }
  }

  /** Nobody but the current process has time left, now or after a recharge. */
  ghost predicate NobodyElseFit(w: World)
    requires Inv(w)
  {
    || (forall p :: p in w.running && p != w.current ==> w.remaining[p] < 0)
    || (forall p :: p in w.running && p != w.current ==> w.remaining[p] <= 0 && w.priority[p] < 0)
  }

  /** What a scheduler that looks around falls back to, and when. */
  lemma FallsBackIff(w: World)
    requires Inv(w) && !KeepsSlice(w)
    ensures var r := Sched(w);
      if (forall p :: p in w.running ==> w.remaining[p] < 0)
         || (forall p :: p in w.running ==> w.remaining[p] <= 0 && w.priority[p] < 0)
      then r.current == w.idle else r.current in w.running
  {
    var r := Sched(w);
    PickIsFirstMaximal(r.running, r.remaining, r.idle);
    PickIsFirstMaximal(w.running, w.remaining, w.idle);
    PickIsFirstMaximal(w.running, w.priority, w.idle);
    BestBounds(w.running, w.remaining, w.idle);
    BestBounds(w.running, w.priority, w.idle);
    RechargedBest(w);
    hide Inv, Best, Pick, FirstBest;
  }

  lemma PutToSleepFacts(w: World, addr: nat, uninterruptible: bool)
    requires Inv(w) && w.state[w.current] != Sleeping
    ensures var r := PutToSleep(w, addr, uninterruptible);
      && (forall p :: p in r.running <==> p in w.running && p != w.current)
      && r.remaining == w.remaining && r.priority == w.priority && r.idle == w.idle && r.current == w.current
      && r.state == w.state[w.current := Sleeping] && w.current in r.buckets[Hash(addr)]
  {
    DeleteFacts(w.running, w.current);
  }

  /**
   After a sleep the lists and states are in step, and what runs next is asleep
   iff idle is and nobody else is fit to run.
   */
  lemma SleeperNotChosen(w: World, addr: nat, uninterruptible: bool)
    requires Inv(w) && w.state[w.current] != Sleeping
    ensures var r := Sleep(w, addr, uninterruptible);
      && Inv(r) && r.state[w.current] == Sleeping && w.current in r.buckets[Hash(addr)]
      && (r.state[r.current] == Sleeping <==> (w.idle == w.current || w.state[w.idle] == Sleeping) && NobodyElseFit(w))
  {
    SleepingInv(w, addr, uninterruptible);
    var w1 := PutToSleep(w, addr, uninterruptible);
    PutToSleepFacts(w, addr, uninterruptible);
    SchedKeepsInv(w1);
    FallsBackIff(w1);
    RunningListed(w1);
    WhoIsFit(w, w1);
    hide Inv, Sched, PutToSleep, NobodyElseFit;
  }

  lemma WhoIsFit(w: World, w1: World)
    requires Inv(w) && Inv(w1)
    requires forall p :: p in w1.running <==> p in w.running && p != w.current
    requires w1.remaining == w.remaining && w1.priority == w.priority
    ensures NobodyElseFit(w) <==>
      || (forall p :: p in w1.running ==> w1.remaining[p] < 0)
      || (forall p :: p in w1.running ==> w1.remaining[p] <= 0 && w1.priority[p] < 0)
  {
  }

  lemma RunningListed(w: World)
    requires Inv(w)
    ensures forall p :: p in w.running <==> p in w.state && w.state[p] == Running
  {
  }

  /** With times as the kernel keeps them, a sleeper runs next iff idle is asleep and nobody else is runnable. */
  lemma SleeperChosenIff(w: World, addr: nat, uninterruptible: bool)
    requires Inv(w) && NonNegativeTimes(w) && w.state[w.current] != Sleeping
    ensures var r := Sleep(w, addr, uninterruptible);
      Inv(r) && (r.state[r.current] == Sleeping
      <==> (w.idle == w.current || w.state[w.idle] == Sleeping) && forall p :: p in w.running ==> p == w.current)
  {
    SleeperNotChosen(w, addr, uninterruptible);
    hide Sleep;
  }

  /** One process, idle itself, on the run list. */
  function IdleAlone(): World {
    World(map[1 := Running], map[1 := 0], {}, map[1 := 0], map[1 := 1], [1], [[], [], [], [], [], []], 1, 1, false)
  }

  /** Idle, alone on the run list, goes to sleep and is chosen to run. */
  lemma IdleSleepsOn(addr: nat, uninterruptible: bool)
    ensures var w := IdleAlone();
      && Inv(w) && NonNegativeTimes(w) && w.state[w.current] != Sleeping
      && var r := Sleep(w, addr, uninterruptible); Inv(r) && r.state[r.current] == Sleeping
  {
    var w := IdleAlone();
    assert RunListMatches(w.running, w.state);
    assert Inv(w);
    SleeperNotChosen(w, addr, uninterruptible);
  }

  /** The scheduler picks a running process or idle, and moves nobody between lists. */
  lemma SchedKeepsInv(w: World)
    requires Inv(w)
    ensures var r := Sched(w);
      && Inv(r) && r.state == w.state && r.buckets == w.buckets && r.running == w.running && r.idle == w.idle
      && r.sleepAddr == w.sleepAddr
      && (!KeepsSlice(w) ==> r.current == w.idle || r.state[r.current] == Running)
  {
    if !KeepsSlice(w) {
      BestBounds(w.running, Sched(w).remaining, w.idle);
      ChangedTimes(w, Sched(w));
    }
  }

  /** The lists and states do not depend on times, on who is current or on the resched flag. */
  lemma ChangedTimes(w: World, r: World)
    requires Inv(w) && r.current in w.state && r.remaining.Keys == w.remaining.Keys
    requires r == w.(remaining := r.remaining, current := r.current, needsResched := r.needsResched)
    ensures Inv(r)
  {
  }

  // ---------- wakeup ----------

  /** Who leaves the bucket, in order, and who stays. */
  datatype Scan = Scan(woken: seq<nat>, kept: seq<nat>)

  predicate On(p: nat, sleepAddr: map<nat, nat>, addr: nat) {
    p in sleepAddr && sleepAddr[p] == addr
  }

  /** While the bucket's first process sleeps on `addr` it is taken; then the walk starts behind it (sleep.c:89-119). */
  function FromHead(xs: seq<nat>, sleepAddr: map<nat, nat>, addr: nat): Scan {
    if xs == [] then Scan([], [])
    else if On(xs[0], sleepAddr, addr) then
      var r := FromHead(xs[1..], sleepAddr, addr);
      Scan([xs[0]] + r.woken, r.kept)
    else
      var r := Further(xs[1..], sleepAddr, addr);
      Scan(r.woken, [xs[0]] + r.kept)
  }

  /** Further in, the process behind one that is taken is stepped over unseen. */
  function Further(xs: seq<nat>, sleepAddr: map<nat, nat>, addr: nat): Scan {
    if xs == [] then Scan([], [])
    else if !On(xs[0], sleepAddr, addr) then
      var r := Further(xs[1..], sleepAddr, addr);
      Scan(r.woken, [xs[0]] + r.kept)
    else if |xs| == 1 then Scan([xs[0]], [])
    else
      var r := Further(xs[2..], sleepAddr, addr);
      Scan([xs[0]] + r.woken, [xs[1]] + r.kept)
  }

  ghost predicate NobodyOn(xs: seq<nat>, sleepAddr: map<nat, nat>, addr: nat) {
    forall i :: 0 <= i < |xs| ==> !On(xs[i], sleepAddr, addr)
  }

  /** No two neighbours both sleep on `addr`. */
  ghost predicate NoNeighbours(xs: seq<nat>, sleepAddr: map<nat, nat>, addr: nat) {
    forall i :: 0 <= i < |xs| - 1 ==> !(On(xs[i], sleepAddr, addr) && On(xs[i + 1], sleepAddr, addr))
  }

  /** The bucket behind its leading sleepers on `addr`. */
  function Rest(xs: seq<nat>, sleepAddr: map<nat, nat>, addr: nat): seq<nat> {
    if xs != [] && On(xs[0], sleepAddr, addr) then Rest(xs[1..], sleepAddr, addr) else xs
  }

  lemma {:induction false} FurtherComplete(xs: seq<nat>, sleepAddr: map<nat, nat>, addr: nat)
    ensures NobodyOn(Further(xs, sleepAddr, addr).kept, sleepAddr, addr) <==> NoNeighbours(xs, sleepAddr, addr)
  {
    var kept := Further(xs, sleepAddr, addr).kept;
    if xs == [] {
    } else if !On(xs[0], sleepAddr, addr) {
      FurtherComplete(xs[1..], sleepAddr, addr);
      assert kept[1..] == Further(xs[1..], sleepAddr, addr).kept;
      ConsNobody(xs[0], kept[1..], sleepAddr, addr);
      ConsNeighbours(xs, sleepAddr, addr);
    } else if |xs| > 1 {
      FurtherComplete(xs[2..], sleepAddr, addr);
      assert kept[1..] == Further(xs[2..], sleepAddr, addr).kept;
      ConsNobody(xs[1], kept[1..], sleepAddr, addr);
      ConsNeighbours(xs, sleepAddr, addr);
      ConsNeighbours(xs[1..], sleepAddr, addr);
      assert xs[1..][1..] == xs[2..];
    }
  }

  lemma ConsNobody(x: nat, xs: seq<nat>, sleepAddr: map<nat, nat>, addr: nat)
    ensures NobodyOn([x] + xs, sleepAddr, addr) <==> !On(x, sleepAddr, addr) && NobodyOn(xs, sleepAddr, addr)
  {
    var ys := [x] + xs;
    assert ys[0] == x && forall i :: 0 <= i < |xs| ==> ys[i + 1] == xs[i];
  }

  lemma ConsNeighbours(xs: seq<nat>, sleepAddr: map<nat, nat>, addr: nat)
    requires xs != []
    ensures NoNeighbours(xs, sleepAddr, addr) <==>
      NoNeighbours(xs[1..], sleepAddr, addr)
      && (|xs| > 1 ==> !(On(xs[0], sleepAddr, addr) && On(xs[1], sleepAddr, addr)))
  {
    var ys := xs[1..];
    assert forall i :: 0 <= i < |ys| ==> ys[i] == xs[i + 1];
    if NoNeighbours(ys, sleepAddr, addr) && (|xs| > 1 ==> !(On(xs[0], sleepAddr, addr) && On(xs[1], sleepAddr, addr))) {
      forall i | 0 <= i < |xs| - 1 ensures !(On(xs[i], sleepAddr, addr) && On(xs[i + 1], sleepAddr, addr)) {
        if i > 0 { assert ys[i - 1] == xs[i] && ys[i] == xs[i + 1]; }
      }
    }
  }

  /** A wakeup leaves nobody asleep on its address iff behind the leading run no two neighbours sleep on it. */
  lemma {:induction false} WakeupCompleteIff(xs: seq<nat>, sleepAddr: map<nat, nat>, addr: nat)
    ensures NobodyOn(FromHead(xs, sleepAddr, addr).kept, sleepAddr, addr) <==>
      NoNeighbours(Rest(xs, sleepAddr, addr), sleepAddr, addr)
  {
    if xs != [] {
      if On(xs[0], sleepAddr, addr) {
        WakeupCompleteIff(xs[1..], sleepAddr, addr);
      } else {
        FurtherComplete(xs[1..], sleepAddr, addr);
        ConsNobody(xs[0], Further(xs[1..], sleepAddr, addr).kept, sleepAddr, addr);
        ConsNeighbours(xs, sleepAddr, addr);
      }
    }
  }

  /** The scan splits the bucket without loss or repetition and takes only sleepers on `addr`. */
  ghost predicate Splits(xs: seq<nat>, r: Scan, sleepAddr: map<nat, nat>, addr: nat) {
    && NoDup(r.woken) && NoDup(r.kept) && |r.woken| + |r.kept| == |xs|
    && (forall p :: p in xs <==> p in r.woken || p in r.kept)
    && (forall p :: p in r.woken ==> p !in r.kept && On(p, sleepAddr, addr))
  }

  lemma OneMoreWoken(x: nat, xs: seq<nat>, r: Scan, sleepAddr: map<nat, nat>, addr: nat)
    requires Splits(xs, r, sleepAddr, addr) && x !in xs && On(x, sleepAddr, addr)
    ensures Splits([x] + xs, Scan([x] + r.woken, r.kept), sleepAddr, addr)
  {
    assert x !in r.woken && x !in r.kept;
  }

  lemma OneMoreKept(x: nat, xs: seq<nat>, r: Scan, sleepAddr: map<nat, nat>, addr: nat)
    requires Splits(xs, r, sleepAddr, addr) && x !in xs
    ensures Splits([x] + xs, Scan(r.woken, [x] + r.kept), sleepAddr, addr)
  {
    assert x !in r.woken && x !in r.kept;
  }

  lemma FirstApart(xs: seq<nat>)
    requires NoDup(xs) && xs != []
    ensures xs == [xs[0]] + xs[1..] && xs[0] !in xs[1..] && NoDup(xs[1..])
  {
  }

  lemma {:induction false} FurtherSplits(xs: seq<nat>, sleepAddr: map<nat, nat>, addr: nat)
    requires NoDup(xs)
    ensures Splits(xs, Further(xs, sleepAddr, addr), sleepAddr, addr)
  {
    hide On, Splits, NoDup;
    if xs == [] {
      NothingSplits(sleepAddr, addr);
    } else {
      FirstApart(xs);
      if !On(xs[0], sleepAddr, addr) {
        FurtherSplits(xs[1..], sleepAddr, addr);
        OneMoreKept(xs[0], xs[1..], Further(xs[1..], sleepAddr, addr), sleepAddr, addr);
      } else if |xs| == 1 {
        NothingSplits(sleepAddr, addr);
        OneMoreWoken(xs[0], [], Scan([], []), sleepAddr, addr);
        assert xs == [xs[0]] + [] && [xs[0]] + [] == [xs[0]];
      } else {
        FirstApart(xs[1..]);
        assert xs[1..][1..] == xs[2..];
        FurtherSplits(xs[2..], sleepAddr, addr);
        var r := Further(xs[2..], sleepAddr, addr);
        OneMoreKept(xs[1], xs[2..], r, sleepAddr, addr);
        OneMoreWoken(xs[0], xs[1..], Scan(r.woken, [xs[1]] + r.kept), sleepAddr, addr);
      }
    }
  }

  lemma NothingSplits(sleepAddr: map<nat, nat>, addr: nat)
    ensures Splits([], Scan([], []), sleepAddr, addr)
  {
  }

  lemma {:induction false} FromHeadSplits(xs: seq<nat>, sleepAddr: map<nat, nat>, addr: nat)
    requires NoDup(xs)
    ensures Splits(xs, FromHead(xs, sleepAddr, addr), sleepAddr, addr)
  {
    hide On, Splits, NoDup;
    if xs == [] {
      NothingSplits(sleepAddr, addr);
    } else {
      FirstApart(xs);
      if On(xs[0], sleepAddr, addr) {
        FromHeadSplits(xs[1..], sleepAddr, addr);
        OneMoreWoken(xs[0], xs[1..], FromHead(xs[1..], sleepAddr, addr), sleepAddr, addr);
      } else {
        FurtherSplits(xs[1..], sleepAddr, addr);
        OneMoreKept(xs[0], xs[1..], Further(xs[1..], sleepAddr, addr), sleepAddr, addr);
      }
    }
  }

  /** One process taken off its bucket (sleep.c:92-99). */
  function WakeOne(w: World, p: nat): (r: World)
    requires p in w.state && p in w.priority
    ensures r.buckets == w.buckets && r.state.Keys == w.state.Keys && r.priority == w.priority
  {
    Runnable(w.(sleepAddr := w.sleepAddr[p := NULL], remaining := w.remaining[p := w.priority[p]],
                uninterruptible := w.uninterruptible - {p}), p).(needsResched := true)
  }

  function WakeAll(w: World, ps: seq<nat>): (r: World)
    requires forall p :: p in ps ==> p in w.state && p in w.priority
    ensures r.state.Keys == w.state.Keys && r.priority == w.priority
  {
    if ps == [] then w else WakeOne(WakeAll(w, ps[..|ps| - 1]), ps[|ps| - 1])
  }

  ghost function Wakeup(w: World, addr: nat): World
    requires Inv(w)
  {
    var k := Hash(addr);
    var r := FromHead(w.buckets[k], w.sleepAddr, addr);
    BucketSplits(w, addr);
    WakeAll(w.(buckets := w.buckets[k := r.kept]), r.woken)
  }

  lemma BucketSplits(w: World, addr: nat)
    requires Inv(w)
    ensures var xs := w.buckets[Hash(addr)];
      var r := FromHead(xs, w.sleepAddr, addr);
      && Splits(xs, r, w.sleepAddr, addr)
      && forall p :: p in xs ==> p in w.state && p in w.priority && w.state[p] == Sleeping
  {
    assert BucketMatches(w.buckets[Hash(addr)], w.state, w.sleepAddr, Hash(addr));
    FromHeadSplits(w.buckets[Hash(addr)], w.sleepAddr, addr);
  }

  /** What waking `ps` does to every process: those in `ps` run with a fresh slice, all others are untouched. */
  ghost predicate Woken(w: World, r: World, ps: seq<nat>)
    requires WellFormed(w) && WellFormed(r)
  {
    && r.state.Keys == w.state.Keys && r.priority == w.priority && r.buckets == w.buckets
    && r.current == w.current && r.idle == w.idle && r.needsResched == (w.needsResched || ps != [])
    && (forall p :: p in r.uninterruptible <==> p in w.uninterruptible && p !in ps)
    && (forall p :: p in w.state ==>
          && r.state[p] == (if p in ps then Running else w.state[p])
          && r.sleepAddr[p] == (if p in ps then NULL else w.sleepAddr[p])
          && r.remaining[p] == (if p in ps then w.priority[p] else w.remaining[p]))
  }

  lemma {:induction false} WakeAllFacts(w: World, ps: seq<nat>)
    requires WellFormed(w) && RunListMatches(w.running, w.state) && NoDup(ps)
    requires forall p :: p in ps ==> p in w.state && w.state[p] == Sleeping
    ensures var r := WakeAll(w, ps);
      WellFormed(r) && RunListMatches(r.running, r.state) && Woken(w, r, ps)
  {
    if ps != [] {
      var init, last := ps[..|ps| - 1], ps[|ps| - 1];
      assert ps == init + [last] && last !in init;
      WakeAllFacts(w, init);
      WakeOneFacts(w, WakeAll(w, init), init, last);
    }
  }

  lemma WakeOneFacts(w: World, m: World, ps: seq<nat>, p: nat)
    requires WellFormed(w) && WellFormed(m) && RunListMatches(m.running, m.state) && Woken(w, m, ps)
    requires p !in ps && p in w.state && w.state[p] == Sleeping
    ensures var r := WakeOne(m, p);
      WellFormed(r) && RunListMatches(r.running, r.state) && Woken(w, r, ps + [p])
  {
    assert p !in m.running;
  }

  lemma BucketsAfterWaking(w: World, addr: nat, r: World, ps: seq<nat>, kept: seq<nat>)
    requires Inv(w) && WellFormed(r) && r.buckets == w.buckets[Hash(addr) := kept]
    requires Splits(w.buckets[Hash(addr)], Scan(ps, kept), w.sleepAddr, addr)
    requires Woken(w.(buckets := r.buckets), r, ps)
    ensures forall j :: 0 <= j < BUCKETS ==> BucketMatches(r.buckets[j], r.state, r.sleepAddr, j)
  {
    assert BucketMatches(w.buckets[Hash(addr)], w.state, w.sleepAddr, Hash(addr));
    forall j | 0 <= j < BUCKETS ensures BucketMatches(r.buckets[j], r.state, r.sleepAddr, j) {
      assert BucketMatches(w.buckets[j], w.state, w.sleepAddr, j);
    }
  }

  /** A wakeup keeps lists and states in step, and only sleepers on `addr` change at all. */
  lemma WakeupKeepsInv(w: World, addr: nat)
    requires Inv(w)
    ensures var r := Wakeup(w, addr);
      && Inv(r) && r.state.Keys == w.state.Keys && r.current == w.current && r.idle == w.idle
      && forall p :: p in w.state && !(w.state[p] == Sleeping && w.sleepAddr[p] == addr) ==>
           r.state[p] == w.state[p] && r.sleepAddr[p] == w.sleepAddr[p] && r.remaining[p] == w.remaining[p]
  {
    hide WakeAll, FromHead, NoDup, BucketMatches, RunListMatches;
    var k := Hash(addr);
    var s := FromHead(w.buckets[k], w.sleepAddr, addr);
    BucketSplits(w, addr);
    var m := w.(buckets := w.buckets[k := s.kept]);
    WakeAllFacts(m, s.woken);
    BucketsAfterWaking(w, addr, Wakeup(w, addr), s.woken, s.kept);
  }

  /**
   Exactly the scanned-out sleepers become runnable; everybody on `addr` does iff no two of them adjoin
   behind the leading run.
   */
  lemma WakeupIsCompleteIff(w: World, addr: nat)
    requires Inv(w)
    ensures (forall p :: p in w.state && w.state[p] == Sleeping && w.sleepAddr[p] == addr ==>
      Wakeup(w, addr).state[p] == Running)
      <==> NoNeighbours(Rest(w.buckets[Hash(addr)], w.sleepAddr, addr), w.sleepAddr, addr)
  {
    var k := Hash(addr);
    var xs := w.buckets[k];
    var s := FromHead(xs, w.sleepAddr, addr);
    assert BucketMatches(xs, w.state, w.sleepAddr, k);
    BucketSplits(w, addr);
    WakeAllFacts(w.(buckets := w.buckets[k := s.kept]), s.woken);
    WakeupCompleteIff(xs, w.sleepAddr, addr);
    hide WakeAll, FromHead, NoDup, RunListMatches, NoNeighbours, Rest;
    if p :| p in w.state && w.state[p] == Sleeping && w.sleepAddr[p] == addr && Wakeup(w, addr).state[p] != Running {
      assert p in xs && p in s.kept;
      var i :| 0 <= i < |s.kept| && s.kept[i] == p;
      assert On(s.kept[i], w.sleepAddr, addr);
    } else {
      forall i | 0 <= i < |s.kept| ensures !On(s.kept[i], w.sleepAddr, addr) {
        assert s.kept[i] in xs && s.kept[i] !in s.woken;
      }
    }
  }

  /** Everybody is left alone, or was asleep on `addr` and runs now; those the scan kept are left alone. */
  lemma WakeupRunsOrKeeps(w: World, addr: nat)
    requires Inv(w)
    ensures var r := Wakeup(w, addr);
      && r.state.Keys == w.state.Keys && r.sleepAddr.Keys == w.sleepAddr.Keys
      && (forall p :: p in w.state ==>
            (r.state[p] == w.state[p] && r.sleepAddr[p] == w.sleepAddr[p]) || r.state[p] == Running)
      && (forall p :: p in FromHead(w.buckets[Hash(addr)], w.sleepAddr, addr).kept ==>
            p in w.state && r.state[p] == w.state[p] && r.sleepAddr[p] == w.sleepAddr[p])
  {
    hide WakeAll, FromHead, NoDup, BucketMatches, RunListMatches;
    var k := Hash(addr);
    var s := FromHead(w.buckets[k], w.sleepAddr, addr);
    BucketSplits(w, addr);
    WakeAllFacts(w.(buckets := w.buckets[k := s.kept]), s.woken);
  }
}
