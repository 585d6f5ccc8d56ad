/**
 The process table with its intrusive lists, as the code updates it in place
 (kernel/src/proc/proc.c:113-151, sleep.c:27-122, sched.c:37-80 and lock.c:12-44).
 */
module ProcTable {
  import opened Dll
  import opened Procs

  /** proc_running_list; whoever is not on it has both links NULL, which proc_runnable relies on. */
  ghost predicate RunLinked(head: nat, next: Links, prev: Links, running: seq<nat>, procs: set<nat>) {
    && Listed(head, next, prev, running)
    && next.Keys == procs && prev.Keys == procs && NULL !in procs
    && (forall p :: p in running ==> p in procs)
    && (forall p :: p in procs && p !in running ==> next[p] == NULL && prev[p] == NULL)
  }

  /** sleep_hash_table; the links of whoever is in no bucket may hold anything. */
  ghost predicate SleepLinked(heads: seq<nat>, next: Links, prev: Links, buckets: seq<seq<nat>>, procs: set<nat>) {
    && |heads| == |buckets| == BUCKETS
    && next.Keys == procs && prev.Keys == procs && NULL !in procs
    && (forall k :: 0 <= k < BUCKETS ==> Listed(heads[k], next, prev, buckets[k]))
    && (forall k :: 0 <= k < BUCKETS ==> Apart(buckets, k))
  }

  ghost predicate Apart(buckets: seq<seq<nat>>, k: nat)
    requires k < |buckets|
  {
    forall j :: 0 <= j < |buckets| && j != k ==> Disjoint(buckets[k], buckets[j])
  }

  ghost predicate Disjoint(xs: seq<nat>, ys: seq<nat>) {
    forall p :: p in xs ==> p !in ys
  }

  /** The links of `p`, emptied after it is unlinked (proc.c:138-147). */
  lemma UnlinkRunning(head: nat, next: Links, prev: Links, running: seq<nat>, procs: set<nat>, p: nat)
    requires RunLinked(head, next, prev, running, procs) && p in procs
    ensures p in next && p in prev && next[p] != p && prev[p] != p
    ensures RunLinked(if p == head then next[p] else head,
                      UnlinkNext(next, prev, p)[p := NULL], UnlinkPrev(next, prev, p)[p := NULL],
                      Delete(running, p), procs)
  {
    DeleteFacts(running, p);
    if p in running {
      UnlinkListed(head, next, prev, running, procs, p);
    } else {
      DeleteAbsent(running, p);
      HeadOf(head, next, prev, running);
      assert next[p := NULL] == next && prev[p := NULL] == prev;
    }
  }

  lemma UnlinkListed(head: nat, next: Links, prev: Links, running: seq<nat>, procs: set<nat>, p: nat)
    requires RunLinked(head, next, prev, running, procs) && p in running
    ensures next[p] != p && prev[p] != p
    ensures RunLinked(if p == head then next[p] else head,
                      UnlinkNext(next, prev, p)[p := NULL], UnlinkPrev(next, prev, p)[p := NULL],
                      Delete(running, p), procs)
  {
    hide Listed, UnlinkNext, UnlinkPrev, Delete, At, NoDup, Without;
    var k :| 0 <= k < |running| && running[k] == p;
    ListedApart(head, next, prev, running);
    DeleteIsWithout(running, k);
    DeleteFacts(running, p);
    UnlinkKeepsListed(head, next, prev, running, k);
    Neighbours(head, next, prev, running, k);
    var head' := if p == head then next[p] else head;
    ForgottenLinks(head', UnlinkNext(next, prev, p), UnlinkPrev(next, prev, p), Delete(running, p), p);
    UnlinkTouches(next, prev, p);
    var next', prev' := UnlinkNext(next, prev, p)[p := NULL], UnlinkPrev(next, prev, p)[p := NULL];
    assert next'.Keys == procs && prev'.Keys == procs;
    forall q | q in procs && q !in Delete(running, p) ensures next'[q] == NULL && prev'[q] == NULL {
      if q != p { assert q !in running; }
    }
  }

  lemma ListedApart(head: nat, next: Links, prev: Links, xs: seq<nat>)
    requires Listed(head, next, prev, xs)
    ensures NoDup(xs)
  {
  }

  lemma UnlinkTouches(next: Links, prev: Links, p: nat)
    requires p in next && p in prev && next.Keys == prev.Keys
    requires (next[p] != NULL ==> next[p] in next) && (prev[p] != NULL ==> prev[p] in next)
    ensures UnlinkNext(next, prev, p).Keys == next.Keys && UnlinkPrev(next, prev, p).Keys == next.Keys
    ensures forall q :: q in next && q != prev[p] ==> UnlinkNext(next, prev, p)[q] == next[q]
    ensures forall q :: q in next && q != next[p] ==> UnlinkPrev(next, prev, p)[q] == prev[q]
  {
  }

  lemma ForgottenLinks(head: nat, next: Links, prev: Links, xs: seq<nat>, p: nat)
    requires Listed(head, next, prev, xs) && p !in xs
    ensures Listed(head, next[p := NULL], prev[p := NULL], xs)
  {
  }

  lemma PushRunning(head: nat, next: Links, prev: Links, running: seq<nat>, procs: set<nat>, p: nat)
    requires RunLinked(head, next, prev, running, procs) && p in procs && p !in running
    ensures RunLinked(p, if head != NULL then next[p := head] else next, if head != NULL then prev[head := p] else prev,
                      [p] + running, procs)
  {
    PushKeepsListed(head, next, prev, running, p);
    HeadOf(head, next, prev, running);
    assert head == NULL ==> next[p := head] == next;
    assert PushPrev(prev, head, p) == if head != NULL then prev[head := p] else prev;
  }

  lemma PushSleeper(heads: seq<nat>, next: Links, prev: Links, buckets: seq<seq<nat>>, procs: set<nat>, k: nat, p: nat)
    requires SleepLinked(heads, next, prev, buckets, procs) && p in procs && k < BUCKETS
    requires forall j :: 0 <= j < BUCKETS ==> p !in buckets[j]
    ensures SleepLinked(heads[k := p], next[p := heads[k]], PushPrev(prev, heads[k], p),
      buckets[k := [p] + buckets[k]], procs)
  {
    var buckets' := buckets[k := [p] + buckets[k]];
    var next', prev' := next[p := heads[k]], PushPrev(prev, heads[k], p);
    HeadOf(heads[k], next, prev, buckets[k]);
    forall j | 0 <= j < BUCKETS ensures Listed(heads[k := p][j], next', prev', buckets'[j]) {
      if j == k {
        PushKeepsListed(heads[k], next, prev, buckets[k], p);
      } else {
        assert Apart(buckets, k);
        PushKeepsOther(heads[k], next, prev, buckets[k], p, heads[j], buckets[j]);
      }
    }
    hide Listed;
    ApartPushed(buckets, k, p);
  }

  lemma HeadOf(head: nat, next: Links, prev: Links, xs: seq<nat>)
    requires Listed(head, next, prev, xs)
    ensures head != NULL ==> head in xs && head in next
  {
  }

  lemma ApartPushed(buckets: seq<seq<nat>>, k: nat, p: nat)
    requires k < |buckets| && forall j :: 0 <= j < |buckets| ==> p !in buckets[j]
    requires forall j {:trigger Apart(buckets, j)} :: 0 <= j < |buckets| ==> Apart(buckets, j)
    ensures forall j {:trigger buckets[j]} :: 0 <= j < |buckets| ==> Apart(buckets[k := [p] + buckets[k]], j)
  {
    var pushed := buckets[k := [p] + buckets[k]];
    forall j | 0 <= j < |buckets| ensures Apart(pushed, j) {
      assert Apart(buckets, j);
      forall i | 0 <= i < |pushed| && i != j ensures Disjoint(pushed[j], pushed[i]) {
        assert Disjoint(buckets[j], buckets[i]);
      }
    }
  }

  lemma UnlinkSleeper(heads: seq<nat>, next: Links, prev: Links, buckets: seq<seq<nat>>, procs: set<nat>, k: nat,
                      i: nat)
    requires SleepLinked(heads, next, prev, buckets, procs) && k < BUCKETS && i < |buckets[k]|
    requires forall p :: p in buckets[k] ==> p in procs
    ensures var p := buckets[k][i];
      SleepLinked(if heads[k] == p then heads[k := next[p]] else heads,
                  UnlinkNext(next, prev, p), UnlinkPrev(next, prev, p),
                  buckets[k := Without(buckets[k], i)], procs)
  {
    var p := buckets[k][i];
    var heads' := if heads[k] == p then heads[k := next[p]] else heads;
    var buckets' := buckets[k := Without(buckets[k], i)];
    var next', prev' := UnlinkNext(next, prev, p), UnlinkPrev(next, prev, p);
    Neighbours(heads[k], next, prev, buckets[k], i);
    forall j | 0 <= j < BUCKETS ensures Listed(heads'[j], next', prev', buckets'[j]) {
      assert heads'[j] == if j == k && heads[k] == p then next[p] else heads[j];
      if j == k {
        UnlinkKeepsListed(heads[k], next, prev, buckets[k], i);
      } else {
        assert Apart(buckets, k);
        UnlinkKeepsOther(heads[k], next, prev, p, buckets[k], heads[j], buckets[j]);
      }
    }
    hide Listed;
    forall j | 0 <= j < BUCKETS ensures Apart(buckets', j) {
      assert Apart(buckets, j);
    }
  }

  lemma Neighbours(head: nat, next: Links, prev: Links, xs: seq<nat>, i: nat)
    requires Listed(head, next, prev, xs) && i < |xs|
    ensures xs[i] in next && xs[i] in prev && next[xs[i]] == At(xs, i + 1) && prev[xs[i]] == At(xs, i - 1)
    ensures next[xs[i]] != NULL ==> next[xs[i]] in xs && next[xs[i]] in prev
    ensures prev[xs[i]] != NULL ==> prev[xs[i]] in xs && prev[xs[i]] in next
    ensures head == xs[i] <==> i == 0
    ensures next[xs[i]] != xs[i] && prev[xs[i]] != xs[i]
  {
  }

  /** The process table, the two hashed list heads and the scheduler's globals. */
  class Table {
    var state: map<nat, ProcState>
    var sleepAddr: map<nat, nat>
    var uninterruptible: set<nat>
    var remaining: map<nat, int>
    var priority: map<nat, int>
    var runHead: nat
    var nextRunning: Links
    var prevRunning: Links
    const sleepTable: array<nat>
    var nextSleeping: Links
    var prevSleeping: Links
    var current: nat
    const idle: nat
    var needsResched: bool
    ghost var running: seq<nat>
    ghost var buckets: seq<seq<nat>>

    ghost function Abs(): World
      reads this
    {
      World(state, sleepAddr, uninterruptible, remaining, priority, running, buckets, current, idle, needsResched)
    }

    ghost predicate Valid()
      reads this, sleepTable
    {
      && WellFormed(Abs())
      && RunListMatches(running, state)
      && Linked()
    }

    /** Both kinds of lists are what their heads and links say. */
    ghost predicate Linked()
      reads this, sleepTable
    {
      && RunLinked(runHead, nextRunning, prevRunning, running, state.Keys)
      && SleepLinked(sleepTable[..], nextSleeping, prevSleeping, buckets, state.Keys)
    }

    /** The links of proc_runnable (proc.c:123-127); its head is set by the caller. */
    method LinkFirst(p: nat)
      modifies this`nextRunning, this`prevRunning
      ensures nextRunning == old(if runHead != NULL then nextRunning[p := runHead] else nextRunning)
      ensures prevRunning == old(if runHead != NULL then prevRunning[runHead := p] else prevRunning)
    {
      if runHead != NULL {
        nextRunning := nextRunning[p := runHead];
        prevRunning := prevRunning[runHead := p];
      }
    }

    method ProcRunnable(p: nat)
      requires Valid() && p in state
      modifies this`state, this`runHead, this`nextRunning, this`prevRunning, this`running
      ensures Valid() && Abs() == Runnable(old(Abs()), p)
    {
      hide RunLinked, SleepLinked, RunListMatches, WellFormed, Runnable;
      RunnableFields(Abs(), p);
      if state[p] == Running {
        return;
      }
      RunListGrows(Abs(), p);
      PushRunning(runHead, nextRunning, prevRunning, running, state.Keys, p);
      LinkFirst(p);
      runHead, state, running := p, state[p := Running], [p] + running;
    }

    /** The links of proc_not_runnable (proc.c:138-147). */
    method UnlinkRun(p: nat)
      requires p in nextRunning && p in prevRunning && nextRunning[p] != p && prevRunning[p] != p
      modifies this`runHead, this`nextRunning, this`prevRunning
      ensures runHead == old(if p == runHead then nextRunning[p] else runHead)
      ensures nextRunning == old(UnlinkNext(nextRunning, prevRunning, p)[p := NULL])
      ensures prevRunning == old(UnlinkPrev(nextRunning, prevRunning, p)[p := NULL])
    {
      if nextRunning[p] != NULL {
        prevRunning := prevRunning[nextRunning[p] := prevRunning[p]];
      }
      if prevRunning[p] != NULL {
        nextRunning := nextRunning[prevRunning[p] := nextRunning[p]];
      }
      if p == runHead {
        runHead := nextRunning[p];
      }
      prevRunning := prevRunning[p := NULL];
      nextRunning := nextRunning[p := NULL];
    }

    method ProcNotRunnable(p: nat, s: ProcState)
      requires Valid() && p in state
      modifies this`state, this`runHead, this`nextRunning, this`prevRunning, this`running
      ensures Abs() == NotRunnable(old(Abs()), p, s) && Linked() && WellFormed(Abs())
      ensures Valid() <==> s != Running
    {
      hide RunLinked, SleepLinked, RunListMatches, Delete, WellFormed, UnlinkNext, UnlinkPrev, NotRunnable;
      UnlinkRunning(runHead, nextRunning, prevRunning, running, state.Keys, p);
      RunListShrinks(Abs(), p, s);
      NotRunnableFields(Abs(), p, s);
      UnlinkRun(p);
      state, running := state[p := s], Delete(running, p);
    }

    /** One scan of the run list for the largest time slice (sched.c:48-61). */
    method BestRunnable() returns (count: int, next: nat)
      requires Valid()
      ensures count == Best(running, remaining) && next == Pick(running, remaining, idle)
    {
      hide RunLinked, SleepLinked, RunListMatches, Complete, Best, Pick;
      RunWalk(runHead, nextRunning, prevRunning, running, state.Keys);
      RunTimes(Abs());
      BestOfNone(remaining, idle);
      count, next := -1, idle;
      var iter := runHead;
      ghost var i := 0;
      assert running[..0] == [];
      while iter != NULL
        invariant 0 <= i <= |running| && iter == At(running, i)
        invariant count == Best(running[..i], remaining) && next == Pick(running[..i], remaining, idle)
        decreases |running| - i
      {
        BestOfMore(running[..i], running[i], remaining, idle);
        TakeOneMore(running, i);
        if remaining[iter] > count {
          count := remaining[iter];
          next := iter;
        }
        iter := nextRunning[iter];
        i := i + 1;
      }
      assert running[..i] == running;
    }

    /** Every runnable process gets its priority as its next slice (sched.c:69-73). */
    method RechargeAll()
      requires Valid()
      modifies this`remaining
      ensures Valid() && Abs() == Recharge(old(Abs()))
    {
      hide RunLinked, SleepLinked, RunListMatches, WellFormed, Recharge, Refilled;
      RunWalk(runHead, nextRunning, prevRunning, running, state.Keys);
      RunTimes(Abs());
      Refill(Abs());
      var iter := runHead;
      ghost var i, w := 0, Abs();
      assert running[..0] == [];
      while iter != NULL
        invariant 0 <= i <= |running| && iter == At(running, i)
        invariant remaining == Refilled(w, running[..i])
        decreases |running| - i
      {
        RefillOneMore(w, running[..i], running[i]);
        TakeOneMore(running, i);
        remaining := remaining[iter := priority[iter]];
        iter := nextRunning[iter];
        i := i + 1;
      }
      assert running[..i] == running;
    }

    method SchedRun()
      requires Valid() && Inv(Abs()) && SchedEnds(Abs())
      modifies this`remaining, this`needsResched, this`current
      ensures Valid() && Abs() == Sched(old(Abs()))
    {
      hide RunLinked, SleepLinked, RunListMatches, WellFormed, Complete, Best, Pick, Recharge, Sched, Inv;
      InvFacts(Abs());
      SchedIs(Abs());
      if !needsResched && state[current] == Running && remaining[current] > 0 {
        return;
      }
      needsResched := false;
      var next := idle;
      ghost var w, recharged := Abs(), false;
      while true
        invariant Valid()
        invariant Abs() == if recharged then Recharge(w) else w
        invariant recharged ==> Best(w.running, w.remaining) == 0
        decreases if recharged then 0 else 1
      {
        var count: int;
        count, next := BestRunnable();
        if count != 0 {
          break;
        }
        RechargeAll();
        recharged := true;
      }
      if current != next {
        current := next;
      }
    }

    /** Puts the current process in front of a bucket (sleep.c:50-58). */
    method LinkSleeper(k: nat, p: nat)
      requires k < sleepTable.Length
      modifies this`nextSleeping, this`prevSleeping, sleepTable
      ensures sleepTable[..] == old(sleepTable[..])[k := p]
      ensures nextSleeping == old(nextSleeping)[p := old(sleepTable[k])]
      ensures prevSleeping == PushPrev(old(prevSleeping), old(sleepTable[k]), p)
    {
      if sleepTable[k] == NULL {
        sleepTable[k] := p;
        prevSleeping := prevSleeping[p := NULL];
        nextSleeping := nextSleeping[p := NULL];
      } else {
        prevSleeping := prevSleeping[p := NULL];
        nextSleeping := nextSleeping[p := sleepTable[k]];
        prevSleeping := prevSleeping[sleepTable[k] := p];
        sleepTable[k] := p;
      }
    }

    /** The bucket and address of a process about to stop running (sleep.c:46-64). */
    method EnterBucket(addr: nat, uninterruptibly: bool)
      requires Valid() && Inv(Abs()) && state[current] != Sleeping
      modifies this`nextSleeping, this`prevSleeping, sleepTable, this`buckets, this`sleepAddr, this`uninterruptible
      ensures Valid() && Abs() == Bedded(old(Abs()), addr, uninterruptibly)
    {
      hide RunLinked, SleepLinked, RunListMatches, Inv, WellFormed, Bedded;
      var k := addr % BUCKETS;
      BeddedFields(Abs(), addr, uninterruptibly);
      TableLength(sleepTable[..], nextSleeping, prevSleeping, buckets, state.Keys);
      PushSleeper(sleepTable[..], nextSleeping, prevSleeping, buckets, state.Keys, k, current);
      LinkSleeper(k, current);
      buckets := buckets[k := [current] + buckets[k]];
      sleepAddr := sleepAddr[current := addr];
      if uninterruptibly {
        uninterruptible := uninterruptible + {current};
      }
    }

    /** sleep; `pending` and `after` are what its two calls of sig_get return. */
    method SleepOn(addr: nat, interruptible: bool, pending: int, after: int) returns (signum: int)
      requires Valid() && Inv(Abs()) && SwitchEnds(Abs(), addr, !interruptible)
      modifies this, sleepTable
      ensures Valid()
      ensures Abs() == if interruptible && pending != 0 then old(Abs()) else Sleep(old(Abs()), addr, !interruptible)
      ensures signum == if !interruptible then 0 else if pending != 0 then pending
                        else if old(state)[old(current)] == Sleeping then 0 else after
    {
      hide RunLinked, SleepLinked, RunListMatches, Inv, WellFormed, Bedded, Sched, NotRunnable, PutToSleep;
      signum := 0;
      if interruptible {
        signum := pending;
        if signum != 0 {
          return;
        }
      }
      InvFacts(Abs());
      if state[current] == Sleeping {
        signum := 0;
        return;
      }
      SleepingInv(Abs(), addr, !interruptible);
      BeddedFields(Abs(), addr, !interruptible);
      EnterBucket(addr, !interruptible);
      ProcNotRunnable(current, Sleeping);
      SchedRun();
      signum := 0;
      if interruptible {
        signum := after;
      }
    }

    /** One sleeper made runnable (sleep.c:92-99); it still hangs in its bucket. */
    method Rouse(p: nat)
      requires Valid() && p in state && p in priority
      modifies this`sleepAddr, this`remaining, this`uninterruptible, this`needsResched
      modifies this`state, this`runHead, this`nextRunning, this`prevRunning, this`running
      ensures Valid() && Abs() == WakeOne(old(Abs()), p)
    {
      hide RunLinked, SleepLinked, RunListMatches, WellFormed, WakeOne, Runnable;
      WakeOneFields(Abs(), p);
      sleepAddr := sleepAddr[p := NULL];
      remaining := remaining[p := priority[p]];
      uninterruptible := uninterruptible - {p};
      ProcRunnable(p);
      needsResched := true;
    }

    /** Takes `p` out of bucket `k` (sleep.c:102-112); `first` tells that the walk still stands at the table slot. */
    method UnlinkBucket(k: nat, p: nat, first: bool)
      requires k < sleepTable.Length && p in nextSleeping && p in prevSleeping
      requires nextSleeping[p] != p && prevSleeping[p] != p
      modifies this`nextSleeping, this`prevSleeping, sleepTable
      ensures nextSleeping == old(UnlinkNext(nextSleeping, prevSleeping, p))
      ensures prevSleeping == old(UnlinkPrev(nextSleeping, prevSleeping, p))
      ensures sleepTable[..] == if first then old(sleepTable[..])[k := old(nextSleeping[p])] else old(sleepTable[..])
    {
      if nextSleeping[p] != NULL {
        prevSleeping := prevSleeping[nextSleeping[p] := prevSleeping[p]];
      }
      if prevSleeping[p] != NULL {
        nextSleeping := nextSleeping[prevSleeping[p] := nextSleeping[p]];
      }
      if first {
        sleepTable[k] := nextSleeping[p];
      }
    }

    /** Takes the process after `kept` out of its bucket and keeps the lists linked. */
    method LeaveBucket(k: nat, p: nat, first: bool, ghost kept: seq<nat>, ghost rest: seq<nat>)
      requires Valid() && k < BUCKETS && rest != [] && p == rest[0] && buckets[k] == kept + rest
      requires first <==> kept == []
      requires forall q :: q in buckets[k] ==> q in state
      modifies this`nextSleeping, this`prevSleeping, sleepTable, this`buckets
      ensures Valid() && Abs() == LeftWith(old(Abs()), k, kept + rest[1..])
      ensures buckets == old(buckets)[k := kept + rest[1..]]
    {
      hide RunLinked, SleepLinked, RunListMatches, Complete;
      TableLength(sleepTable[..], nextSleeping, prevSleeping, buckets, state.Keys);
      UnlinkSleeper(sleepTable[..], nextSleeping, prevSleeping, buckets, state.Keys, k, |kept|);
      BucketNeighbours(sleepTable[..], nextSleeping, prevSleeping, buckets, state.Keys, k, |kept|);
      assert Without(buckets[k], |kept|) == kept + rest[1..];
      UnlinkBucket(k, p, first);
      buckets := buckets[k := kept + rest[1..]];
    }

    /** What `*head` reads, for `head` at the table slot (`at` NULL) or at the next_sleeping of `at`. */
    function Deref(k: nat, at: nat): nat
      requires k < sleepTable.Length && (at != NULL ==> at in nextSleeping)
      reads this, sleepTable
    {
      if at == NULL then sleepTable[k] else nextSleeping[at]
    }

    method WakeupOn(addr: nat)
      requires Valid() && Inv(Abs())
      modifies this, sleepTable
      ensures Valid() && Abs() == Wakeup(old(Abs()), addr)
    {
      hide RunLinked, SleepLinked, RunListMatches, WellFormed, Inv, Progress, Wakeup, WakeOne, On, LeftWith;
      var k := addr % BUCKETS;
      var at := NULL;
      ghost var w0, kept: seq<nat>, woken: seq<nat> := Abs(), [], [];
      ghost var rest := ProgressStarts(w0, addr);
      TableLength(sleepTable[..], nextSleeping, prevSleeping, buckets, state.Keys);
      BucketWalk(sleepTable[..], nextSleeping, prevSleeping, buckets, state.Keys, k, kept, rest);
      while Deref(k, at) != NULL
        invariant Valid() && k < sleepTable.Length
        invariant Progress(w0, addr, Abs(), kept, rest, woken)
        invariant at == At(kept, |kept| - 1) && (at == NULL <==> kept == []) && (at != NULL ==> at in nextSleeping)
        invariant Deref(k, at) == At(rest, 0) && (rest != [] ==> rest[0] != NULL)
        decreases |rest|
      {
        var p := Deref(k, at);
        ProgressFacts(w0, addr, Abs(), kept, rest, woken);
        if sleepAddr[p] == addr {
          ProgressTaken(w0, addr, Abs(), kept, rest, woken);
          ghost var m := Abs();
          Rouse(p);
          assert state.Keys == m.state.Keys && buckets == m.buckets;
          LeaveBucket(k, p, at == NULL, kept, rest);
          BucketWalk(sleepTable[..], nextSleeping, prevSleeping, buckets, state.Keys, k, kept, rest[1..]);
          rest, woken := rest[1..], woken + [p];
          if at == NULL {
            continue;
          }
        } else {
          ProgressPassed(w0, addr, Abs(), kept, rest, woken);
          BucketWalk(sleepTable[..], nextSleeping, prevSleeping, buckets, state.Keys, k, kept, rest);
        }
        if Deref(k, at) != NULL {
          BucketWalk(sleepTable[..], nextSleeping, prevSleeping, buckets, state.Keys, k, kept + [rest[0]], rest[1..]);
          at := Deref(k, at);
          kept, rest := kept + [rest[0]], rest[1..];
        }
      }
      ProgressEnds(w0, addr, Abs(), kept, woken);
    }
  }

  lemma InvFacts(w: World)
    requires Inv(w)
    ensures WellFormed(w) && w.current in w.state && w.current in w.remaining
    ensures forall p :: p in w.running ==> p in w.state && p in w.remaining && p in w.priority
  {
    RunTimes(w);
  }

  /** sched_run as its loop computes it: whoever is best now or, if nobody has time, after the recharge. */
  lemma SchedIs(w0: World)
    requires Inv(w0) && SchedEnds(w0)
    ensures KeepsSlice(w0) ==> Sched(w0) == w0
    ensures var w := w0.(needsResched := false);
      var r := Recharge(w);
      && WellFormed(w) && WellFormed(r)
      && r == w.(remaining := r.remaining) && (forall p :: p in w.running ==> p in r.remaining)
      && (!KeepsSlice(w0) && Best(w.running, w.remaining) != 0 ==> Switched(w, Sched(w0)))
      && (!KeepsSlice(w0) && Best(w.running, w.remaining) == 0 ==>
            Best(w.running, r.remaining) != 0 && Switched(r, Sched(w0)))
  {
    hide Best, Pick, BucketMatches, RunListMatches;
    var w := w0.(needsResched := false);
    InvFacts(w0);
    ChangedTimes(w0, w);
    Refill(w);
    RechargedBest(w);
    BestBounds(w.running, w.remaining, w.idle);
    BestBounds(w.running, Recharge(w).remaining, w.idle);
  }

  /** The best of `w` becomes current. */
  ghost predicate Switched(w: World, r: World) {
    && (forall p :: p in w.running ==> p in w.remaining)
    && var next := Pick(w.running, w.remaining, w.idle);
       WellFormed(w.(current := next)) &&
       r == World(w.state, w.sleepAddr, w.uninterruptible, w.remaining, w.priority,
                  w.running, w.buckets, next, w.idle, w.needsResched)
  }

  lemma NotRunnableFields(w: World, p: nat, s: ProcState)
    requires p in w.state
    ensures NotRunnable(w, p, s) ==
      World(w.state[p := s], w.sleepAddr, w.uninterruptible, w.remaining, w.priority,
            Delete(w.running, p), w.buckets, w.current, w.idle, w.needsResched)
  {
  }

  lemma RunnableFields(w: World, p: nat)
    requires p in w.state
    ensures Runnable(w, p) == if w.state[p] == Running then w else
      World(w.state[p := Running], w.sleepAddr, w.uninterruptible, w.remaining, w.priority,
            [p] + w.running, w.buckets, w.current, w.idle, w.needsResched)
  {
  }

  lemma RunListGrows(w: World, p: nat)
    requires WellFormed(w) && RunListMatches(w.running, w.state) && p in w.state && w.state[p] != Running
    ensures p !in w.running
    ensures var r := Runnable(w, p);
      WellFormed(r) && RunListMatches(r.running, r.state) && r.state.Keys == w.state.Keys
        && r.running == [p] + w.running
  {
    hide Complete;
    assert w.state[p := Running].Keys == w.state.Keys;
  }

  lemma ShrunkMatches(running: seq<nat>, state: map<nat, ProcState>, p: nat, s: ProcState)
    requires RunListMatches(running, state) && p in state
    ensures RunListMatches(Delete(running, p), state[p := s]) <==> s != Running
  {
    hide Delete, NoDup;
    DeleteFacts(running, p);
  }

  lemma RunListShrinks(w: World, p: nat, s: ProcState)
    requires WellFormed(w) && RunListMatches(w.running, w.state) && p in w.state
    ensures var r := NotRunnable(w, p, s);
      && WellFormed(r) && (RunListMatches(r.running, r.state) <==> s != Running)
      && r.state.Keys == w.state.Keys && r.running == Delete(w.running, p)
  {
    hide Delete, NoDup, Complete, RunListMatches;
    ShrunkMatches(w.running, w.state, p, s);
    assert w.state[p := s].Keys == w.state.Keys;
  }

  lemma RunWalk(head: nat, next: Links, prev: Links, running: seq<nat>, procs: set<nat>)
    requires RunLinked(head, next, prev, running, procs)
    ensures head == At(running, 0)
    ensures forall i {:trigger running[i]} :: 0 <= i < |running| ==>
      running[i] != NULL && running[i] in procs && running[i] in next && next[running[i]] == At(running, i + 1)
  {
  }

  lemma BestOfNone(value: map<nat, int>, idle: nat)
    ensures Best([], value) == -1 && Pick([], value, idle) == idle
  {
  }

  lemma BestOfMore(xs: seq<nat>, x: nat, value: map<nat, int>, idle: nat)
    requires x in value && forall p :: p in xs ==> p in value
    ensures var more := value[x] > Best(xs, value);
      && Best(xs + [x], value) == (if more then value[x] else Best(xs, value))
      && Pick(xs + [x], value, idle) == (if more then x else Pick(xs, value, idle))
  {
    assert (xs + [x])[..|xs|] == xs;
  }

  lemma RunTimes(w: World)
    requires WellFormed(w) && RunListMatches(w.running, w.state)
    ensures forall p :: p in w.running ==> p in w.state && p in w.remaining && p in w.priority
  {
  }

  function Refilled(w: World, ps: seq<nat>): map<nat, int>
    requires forall p :: p in ps ==> p in w.priority
  {
    map p | p in w.remaining :: if p in ps then w.priority[p] else w.remaining[p]
  }

  lemma RefillOneMore(w: World, ps: seq<nat>, p: nat)
    requires p in w.remaining && p in w.priority && forall q :: q in ps ==> q in w.priority
    ensures Refilled(w, ps + [p]) == Refilled(w, ps)[p := w.priority[p]]
  {
  }

  lemma Refill(w: World)
    requires WellFormed(w) && forall p :: p in w.running ==> p in w.priority
    ensures Refilled(w, []) == w.remaining
    ensures Recharge(w) == World(w.state, w.sleepAddr, w.uninterruptible, Refilled(w, w.running), w.priority,
                                 w.running, w.buckets, w.current, w.idle, w.needsResched)
    ensures WellFormed(Recharge(w))
  {
    assert Refilled(w, w.running).Keys == w.remaining.Keys;
    hide Complete;
  }

  lemma TakeOneMore(xs: seq<nat>, i: nat)
    requires i < |xs|
    ensures xs[..i + 1] == xs[..i] + [xs[i]]
  {
  }

  /** The scheduler that sleep calls comes back with somebody. */
  ghost predicate SwitchEnds(w: World, addr: nat, uninterruptible: bool)
    requires Inv(w)
  {
    w.state[w.current] != Sleeping ==>
      (SleepingInv(w, addr, uninterruptible);
       SchedEnds(PutToSleep(w, addr, uninterruptible)))
  }

  /** The sleeper before it leaves the run list. */
  function Bedded(w: World, addr: nat, uninterruptible: bool): World
    requires |w.buckets| == BUCKETS
  {
    w.(buckets := w.buckets[Hash(addr) := [w.current] + w.buckets[Hash(addr)]],
      sleepAddr := w.sleepAddr[w.current := addr],
       uninterruptible := if uninterruptible then w.uninterruptible + {w.current} else w.uninterruptible)
  }

  lemma BeddedFields(w: World, addr: nat, uninterruptible: bool)
    requires Inv(w) && w.state[w.current] != Sleeping
    ensures var k := Hash(addr);
      var r := Bedded(w, addr, uninterruptible);
      && |w.buckets| == BUCKETS && w.current in w.state
      && (forall j :: 0 <= j < BUCKETS ==> w.current !in w.buckets[j])
      && WellFormed(r) && PutToSleep(w, addr, uninterruptible) == NotRunnable(r, w.current, Sleeping)
      && r == World(w.state, w.sleepAddr[w.current := addr],
                    if uninterruptible then w.uninterruptible + {w.current} else w.uninterruptible,
                    w.remaining, w.priority, w.running, w.buckets[k := [w.current] + w.buckets[k]],
                    w.current, w.idle, w.needsResched)
  {
    forall j | 0 <= j < BUCKETS ensures w.current !in w.buckets[j] {
      assert BucketMatches(w.buckets[j], w.state, w.sleepAddr, j);
    }
    assert w.sleepAddr[w.current := addr].Keys == w.state.Keys;
  }

  lemma TableLength(heads: seq<nat>, next: Links, prev: Links, buckets: seq<seq<nat>>, procs: set<nat>)
    requires SleepLinked(heads, next, prev, buckets, procs)
    ensures |heads| == |buckets| == BUCKETS
  {
  }

  lemma WakeOneFields(w: World, p: nat)
    requires WellFormed(w) && p in w.state && p in w.priority
    ensures var m := World(w.state, w.sleepAddr[p := NULL], w.uninterruptible - {p},
      w.remaining[p := w.priority[p]], w.priority,
                           w.running, w.buckets, w.current, w.idle, w.needsResched);
      && WellFormed(m) && WakeOne(w, p) == Runnable(m, p).(needsResched := true)
      && (WellFormed(Runnable(m, p)) ==> WellFormed(WakeOne(w, p)))
  {
    assert w.sleepAddr[p := NULL].Keys == w.state.Keys && w.remaining[p := w.priority[p]].Keys == w.state.Keys;
  }

  lemma BucketNeighbours(heads: seq<nat>, next: Links, prev: Links, buckets: seq<seq<nat>>, procs: set<nat>, k: nat,
                         i: nat)
    requires SleepLinked(heads, next, prev, buckets, procs) && k < BUCKETS && i < |buckets[k]|
    ensures var p := buckets[k][i];
      && p in next && p in prev && next[p] != p && prev[p] != p && (heads[k] == p <==> i == 0)
  {
    Neighbours(heads[k], next, prev, buckets[k], i);
  }

  lemma BucketWalk(heads: seq<nat>, next: Links, prev: Links, buckets: seq<seq<nat>>, procs: set<nat>, k: nat,
                   kept: seq<nat>, rest: seq<nat>)
    requires SleepLinked(heads, next, prev, buckets, procs) && k < BUCKETS && buckets[k] == kept + rest
    ensures kept == [] ==> heads[k] == At(rest, 0)
    ensures kept != [] ==> kept[|kept| - 1] != NULL && kept[|kept| - 1] in next && next[kept[|kept| - 1]] == At(rest, 0)
    ensures rest != [] ==> rest[0] != NULL && rest[0] in next
  {
    var xs := buckets[k];
    if kept != [] {
      Neighbours(heads[k], next, prev, xs, |kept| - 1);
      assert xs[|kept| - 1] == kept[|kept| - 1] && xs[|kept| - 1] in xs;
    }
    if rest != [] {
      Neighbours(heads[k], next, prev, xs, |kept|);
      assert xs[|kept|] == rest[0] && xs[|kept|] in xs;
    }
  }

  // ---------- the walk of wakeup ----------

  /** `w` with other sleepers in bucket `k`. */
  function LeftWith(w: World, k: nat, bucket: seq<nat>): World
    requires k < |w.buckets|
  {
    w.(buckets := w.buckets[k := bucket])
  }

  /** What the rest of the walk will still sort out. */
  function Ahead(kept: seq<nat>, rest: seq<nat>, sleepAddr: map<nat, nat>, addr: nat): Scan {
    if kept == [] then FromHead(rest, sleepAddr, addr) else Further(rest, sleepAddr, addr)
  }

  /** The table after `woken` have been taken off their bucket, which still holds `left`. */
  ghost predicate Halfway(w0: World, k: nat, m: World, left: seq<nat>, woken: seq<nat>) {
    && Inv(w0) && k < BUCKETS == |w0.buckets| && NoDup(woken) && NoDup(left)
    && (forall p :: p in left || p in woken ==> p in w0.state && p in w0.priority && w0.state[p] == Sleeping)
    && (forall p :: p in woken ==> p !in left)
    && |WakeAll(w0, woken).buckets| == BUCKETS
    && m == LeftWith(WakeAll(w0, woken), k, left)
  }

  /** `woken` and `kept` are what the whole scan gives, but for what it will make of `rest`. */
  ghost predicate Sorted(xs: seq<nat>, sleepAddr: map<nat, nat>, addr: nat, kept: seq<nat>, rest: seq<nat>,
                         woken: seq<nat>) {
    var a := Ahead(kept, rest, sleepAddr, addr);
    FromHead(xs, sleepAddr, addr) == Scan(woken + a.woken, kept + a.kept)
  }

  ghost predicate Progress(w0: World, addr: nat, m: World, kept: seq<nat>, rest: seq<nat>, woken: seq<nat>) {
    && |w0.buckets| == BUCKETS && Halfway(w0, Hash(addr), m, kept + rest, woken)
    && Sorted(w0.buckets[Hash(addr)], w0.sleepAddr, addr, kept, rest, woken)
  }

  lemma ProgressStarts(w0: World, addr: nat) returns (rest: seq<nat>)
    requires Inv(w0)
    ensures |w0.buckets| == BUCKETS && rest == w0.buckets[Hash(addr)] == [] + rest
      && Progress(w0, addr, w0, [], rest, [])
  {
    hide Inv, FromHead, NoDup, WellFormed, Splits, WakeAll;
    BucketOnce(w0, Hash(addr));
    rest := w0.buckets[Hash(addr)];
    BucketSplits(w0, addr);
    NothingWoken(w0, Hash(addr));
    var a := FromHead(rest, w0.sleepAddr, addr);
    assert [] + rest == rest && [] + a.woken == a.woken && [] + a.kept == a.kept;
  }

  lemma NothingWoken(w: World, k: nat)
    requires k < |w.buckets|
    ensures WakeAll(w, []) == w && LeftWith(w, k, w.buckets[k]) == w && NoDup([])
  {
    assert w.buckets[k := w.buckets[k]] == w.buckets;
  }

  lemma BucketOnce(w: World, k: nat)
    requires Inv(w) && k < BUCKETS
    ensures |w.buckets| == BUCKETS && NoDup(w.buckets[k])
  {
    assert BucketMatches(w.buckets[k], w.state, w.sleepAddr, k);
  }

  lemma ProgressEnds(w0: World, addr: nat, m: World, kept: seq<nat>, woken: seq<nat>)
    requires Progress(w0, addr, m, kept, [], woken)
    ensures m == Wakeup(w0, addr)
  {
    assert FromHead(w0.buckets[Hash(addr)], w0.sleepAddr, addr) == Scan(woken, kept);
    assert kept + [] == kept;
    WakeAllElsewhere(w0, Hash(addr), kept, woken);
  }

  /** Waking people does not depend on what is left in the buckets. */
  lemma {:induction false} WakeAllElsewhere(w: World, k: nat, bucket: seq<nat>, ps: seq<nat>)
    requires k < |w.buckets| && forall p :: p in ps ==> p in w.state && p in w.priority
    ensures WakeAll(w, ps).buckets == w.buckets
    ensures WakeAll(LeftWith(w, k, bucket), ps) == LeftWith(WakeAll(w, ps), k, bucket)
  {
    if ps != [] { WakeAllElsewhere(w, k, bucket, ps[..|ps| - 1]); }
  }

  lemma ProgressFacts(w0: World, addr: nat, m: World, kept: seq<nat>, rest: seq<nat>, woken: seq<nat>)
    requires Progress(w0, addr, m, kept, rest, woken)
    ensures |m.buckets| == BUCKETS && m.buckets[Hash(addr)] == kept + rest
    ensures forall q :: q in kept + rest ==> q in m.state && q in m.priority && q in m.sleepAddr
    ensures rest != [] ==> rest[0] in m.state && rest[0] in m.priority && rest[0] in m.sleepAddr
    ensures rest != [] ==> (On(rest[0], w0.sleepAddr, addr) <==> m.sleepAddr[rest[0]] == addr)
  {
    if rest != [] { assert (kept + rest)[|kept|] == rest[0]; }
    hide FromHead, Further, WakeAll, RunListMatches, BucketMatches;
    WakeAllElsewhere(w0, Hash(addr), [], woken);
    WokenFields(w0, woken);
  }

  lemma WokenFields(w: World, ps: seq<nat>)
    requires Inv(w) && NoDup(ps) && forall p :: p in ps ==> p in w.state && p in w.priority && w.state[p] == Sleeping
    ensures var r := WakeAll(w, ps);
      && r.state.Keys == w.state.Keys && r.priority.Keys == w.state.Keys && r.sleepAddr.Keys == w.state.Keys
      && forall p :: p in w.state && p !in ps ==> p in w.sleepAddr && r.sleepAddr[p] == w.sleepAddr[p]
  {
    hide WakeAll, RunListMatches;
    WakeAllFacts(w, ps);
  }

  lemma SortedPassed(xs: seq<nat>, sleepAddr: map<nat, nat>, addr: nat, kept: seq<nat>, rest: seq<nat>, woken: seq<nat>)
    requires Sorted(xs, sleepAddr, addr, kept, rest, woken) && rest != [] && !On(rest[0], sleepAddr, addr)
    ensures Sorted(xs, sleepAddr, addr, kept + [rest[0]], rest[1..], woken)
  {
    var a, b := Ahead(kept, rest, sleepAddr, addr), Further(rest[1..], sleepAddr, addr);
    assert a == Scan(b.woken, [rest[0]] + b.kept);
    assert kept + a.kept == kept + [rest[0]] + b.kept;
  }

  lemma SortedTaken(xs: seq<nat>, sleepAddr: map<nat, nat>, addr: nat, kept: seq<nat>, rest: seq<nat>, woken: seq<nat>)
    requires Sorted(xs, sleepAddr, addr, kept, rest, woken) && rest != [] && On(rest[0], sleepAddr, addr)
    ensures var r, ws := rest[1..], woken + [rest[0]];
      if kept == [] || r == [] then Sorted(xs, sleepAddr, addr, kept, r, ws)
      else Sorted(xs, sleepAddr, addr, kept + [r[0]], r[1..], ws)
  {
    var r, ws, a := rest[1..], woken + [rest[0]], Ahead(kept, rest, sleepAddr, addr);
    if kept == [] {
      assert a.woken == [rest[0]] + Ahead(kept, r, sleepAddr, addr).woken;
      assert woken + a.woken == ws + Ahead(kept, r, sleepAddr, addr).woken;
    } else if r == [] {
      assert woken + a.woken == ws + Ahead(kept, r, sleepAddr, addr).woken;
    } else {
      assert r[1..] == rest[2..];
      var b := Further(r[1..], sleepAddr, addr);
      assert a == Scan([rest[0]] + b.woken, [r[0]] + b.kept);
      assert woken + a.woken == ws + b.woken && kept + a.kept == kept + [r[0]] + b.kept;
    }
  }

  lemma ProgressPassed(w0: World, addr: nat, m: World, kept: seq<nat>, rest: seq<nat>, woken: seq<nat>)
    requires Progress(w0, addr, m, kept, rest, woken) && rest != [] && !On(rest[0], w0.sleepAddr, addr)
    ensures Progress(w0, addr, m, kept + [rest[0]], rest[1..], woken)
  {
    hide Halfway, Sorted, On;
    assert kept + [rest[0]] + rest[1..] == kept + rest;
    SortedPassed(w0.buckets[Hash(addr)], w0.sleepAddr, addr, kept, rest, woken);
  }

  lemma HalfwayTaken(w0: World, k: nat, m: World, kept: seq<nat>, rest: seq<nat>, woken: seq<nat>)
    requires Halfway(w0, k, m, kept + rest, woken) && rest != [] && rest[0] in m.state && rest[0] in m.priority
    requires |m.buckets| == BUCKETS && k < BUCKETS
    ensures Halfway(w0, k, LeftWith(WakeOne(m, rest[0]), k, kept + rest[1..]), kept + rest[1..], woken + [rest[0]])
  {
    hide Inv, NoDup, WakeAll, WakeOne, LeftWith;
    var p := rest[0];
    MiddleApart(kept, rest);
    AppendApart(woken, p);
    OneMoreAwake(w0, k, kept + rest, kept + rest[1..], woken, p);
  }

  lemma OneMoreAwake(w0: World, k: nat, left: seq<nat>, left': seq<nat>, woken: seq<nat>, p: nat)
    requires k < |w0.buckets| && p in w0.state && p in w0.priority
    requires forall q :: q in woken ==> q in w0.state && q in w0.priority
    requires |WakeAll(w0, woken).buckets| == |w0.buckets|
    ensures forall q :: q in woken + [p] ==> q in w0.state && q in w0.priority
    ensures var m := LeftWith(WakeAll(w0, woken), k, left);
      && p in m.state && p in m.priority && |m.buckets| == |w0.buckets|
      && |WakeAll(w0, woken + [p]).buckets| == |w0.buckets|
      && LeftWith(WakeOne(m, p), k, left') == LeftWith(WakeAll(w0, woken + [p]), k, left')
  {
    var ws := woken + [p];
    assert ws[..|ws| - 1] == woken && ws[|ws| - 1] == p;
    assert WakeAll(w0, ws) == WakeOne(WakeAll(w0, woken), p);
    hide WakeAll;
  }

  lemma MiddleApart(kept: seq<nat>, rest: seq<nat>)
    requires NoDup(kept + rest) && rest != []
    ensures NoDup(kept + rest[1..]) && rest[0] in kept + rest && rest[0] !in kept + rest[1..]
    ensures forall p :: p in kept + rest[1..] ==> p in kept + rest
  {
    var xs, ys := kept + rest, kept + rest[1..];
    assert xs[|kept|] == rest[0];
    assert Without(xs, |kept|) == ys;
    forall i | 0 <= i < |ys| ensures ys[i] in xs && ys[i] != rest[0] {
      assert ys[i] == if i < |kept| then xs[i] else xs[i + 1];
    }
  }

  lemma AppendApart(xs: seq<nat>, x: nat)
    requires NoDup(xs) && x !in xs
    ensures NoDup(xs + [x])
  {
  }

  lemma ProgressTaken(w0: World, addr: nat, m: World, kept: seq<nat>, rest: seq<nat>, woken: seq<nat>)
    requires Progress(w0, addr, m, kept, rest, woken) && rest != [] && On(rest[0], w0.sleepAddr, addr)
    requires rest[0] in m.state && rest[0] in m.priority && |m.buckets| == BUCKETS
    ensures var m' := LeftWith(WakeOne(m, rest[0]), Hash(addr), kept + rest[1..]);
      var r, ws := rest[1..], woken + [rest[0]];
      if kept == [] || r == [] then Progress(w0, addr, m', kept, r, ws)
      else Progress(w0, addr, m', kept + [r[0]], r[1..], ws)
  {
    hide Halfway, Sorted, On;
    HalfwayTaken(w0, Hash(addr), m, kept, rest, woken);
    SortedTaken(w0.buckets[Hash(addr)], w0.sleepAddr, addr, kept, rest, woken);
    var r := rest[1..];
    if r != [] { assert kept + [r[0]] + r[1..] == kept + r; }
  }
}
