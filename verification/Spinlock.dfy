/**
 The ticket spinlock (kernel/src/sync/spinlock.c) as a step system over any
 number of CPUs sharing one packed 32-bit word.
 */
module Spinlock {
  const HALF: nat := 0x1_0000
  const FULL: nat := 0x1_0000_0000

  // ---------- the packed word ----------

  /** The low half: whose turn it is. */
  function Owner(word: nat): nat { word % HALF }

  /** The high half: the next ticket to hand out. */
  function NextTicket(word: nat): nat { word / HALF }

  /** `lock; xaddl` of the pair {owner = 0, next = 1}: one 32-bit addition. */
  function TakeTicket(word: nat): nat { (word + HALF) % FULL }

  /** `lock; addw $1` on the low half: a 16-bit addition whose carry is dropped. */
  function PassOn(word: nat): nat { word - Owner(word) + (Owner(word) + 1) % HALF }

  /** Neither addition disturbs the other half, wrap-around included. */
  lemma HalvesIndependent(word: nat)
    requires word < FULL
    ensures TakeTicket(word) < FULL && PassOn(word) < FULL
    ensures Owner(TakeTicket(word)) == Owner(word) && NextTicket(TakeTicket(word)) == (NextTicket(word) + 1) % HALF
    ensures Owner(PassOn(word)) == (Owner(word) + 1) % HALF && NextTicket(PassOn(word)) == NextTicket(word)
  {
    assert word == NextTicket(word) * HALF + Owner(word) && NextTicket(word) < HALF;
  }

  // ---------- the protocol ----------

  datatype Cpu = Idle | Waiting(ticket: nat) | Holding(ticket: nat)

  datatype State = State(word: nat, cpus: seq<Cpu>)

  /** `Lock` is line 18 with the test of line 22, `Spin` one turn of the loop, `Unlock` line 41. */
  datatype Step = Lock(c: nat) | Spin(c: nat) | Unlock(c: nat)

  predicate Enabled(s: State, step: Step) {
    step.c < |s.cpus| &&
    match step
    case Lock(c) => s.cpus[c].Idle?
    case Spin(c) => s.cpus[c].Waiting?
    case Unlock(c) => s.cpus[c].Holding?
  }

  function Next(s: State, step: Step): State
    requires Enabled(s, step)
  {
    match step
    case Lock(c) =>
      var mine := NextTicket(s.word);
      State(TakeTicket(s.word), s.cpus[c := if Owner(s.word) == mine then Holding(mine) else Waiting(mine)])
    case Spin(c) =>
      if Owner(s.word) == s.cpus[c].ticket then s.(cpus := s.cpus[c := Holding(s.cpus[c].ticket)]) else s
    case Unlock(c) =>
      State(PassOn(s.word), s.cpus[c := Idle])
  }

  function Init(n: nat): State {
    State(0, seq(n, _ => Idle))
  }

  ghost predicate IsRun(s: State, steps: seq<Step>)
    decreases |steps|
  {
    steps == [] || (Enabled(s, steps[0]) && IsRun(Next(s, steps[0]), steps[1..]))
  }

  ghost function After(s: State, steps: seq<Step>): State
    requires IsRun(s, steps)
    decreases |steps|
  {
    if steps == [] then s else After(Next(s, steps[0]), steps[1..])
  }

  ghost predicate Exclusive(s: State) {
    forall c, d :: 0 <= c < |s.cpus| && 0 <= d < |s.cpus| && s.cpus[c].Holding? && s.cpus[d].Holding? ==> c == d
  }

  // ---------- the queue behind the tickets ----------

  /** The ticket `i` places behind `owner`. */
  function Slot(owner: nat, i: nat): nat { (owner + i) % HALF }

  lemma Slots(owner: nat, i: nat)
    requires owner < HALF
    ensures Slot((owner + 1) % HALF, i) == Slot(owner, i + 1) == (Slot(owner, i) + 1) % HALF
    ensures i < HALF ==> (Slot(owner, i) == owner <==> i == 0)
    ensures i < HALF ==> (Slot(owner, i) - owner) % HALF == i
  {
  }

  /** `queue` lists the CPUs that hold a ticket, oldest first. */
  ghost predicate Inv(s: State, queue: seq<nat>) {
    && s.word < FULL
    && (forall i, j :: 0 <= i < j < |queue| ==> queue[i] != queue[j])
    && (forall c :: 0 <= c < |s.cpus| ==> (s.cpus[c].Idle? <==> c !in queue))
    && (forall i :: 0 <= i < |queue| ==>
          queue[i] < |s.cpus| && !s.cpus[queue[i]].Idle? && s.cpus[queue[i]].ticket == Slot(Owner(s.word), i))
    && NextTicket(s.word) == Slot(Owner(s.word), |queue|)
    && (forall i :: 0 < i < |queue| ==> s.cpus[queue[i]].Waiting?)
  }

  function Requeue(queue: seq<nat>, step: Step): seq<nat> {
    match step
    case Lock(c) => queue + [c]
    case Spin(c) => queue
    case Unlock(c) => if queue == [] then queue else queue[1..]
  }

  lemma QueueFits(s: State, queue: seq<nat>)
    requires Inv(s, queue)
    ensures |queue| <= |s.cpus|
    ensures (exists c :: 0 <= c < |s.cpus| && s.cpus[c].Idle?) ==> |queue| < |s.cpus|
  {
    Pigeonhole(queue, |s.cpus|);
    if c :| 0 <= c < |s.cpus| && s.cpus[c].Idle? {
      Pigeonhole(queue + [c], |s.cpus|);
    }
  }

  lemma {:induction false} Pigeonhole(xs: seq<nat>, n: nat)
    requires forall i, j :: 0 <= i < j < |xs| ==> xs[i] != xs[j]
    requires forall i :: 0 <= i < |xs| ==> xs[i] < n
    ensures |xs| <= n
  {
    if xs != [] {
      assert xs[0] < n;
      if k :| 0 <= k < |xs| && xs[k] == n - 1 {
        var ys := xs[..k] + xs[k + 1..];
        forall i | 0 <= i < |ys| ensures ys[i] == if i < k then xs[i] else xs[i + 1] {}
        Pigeonhole(ys, n - 1);
      } else {
        Pigeonhole(xs, n - 1);
      }
    }
  }

  /** The distance from the ticket being served to the ticket of `c`. */
  function Ahead(s: State, c: nat): nat
    requires c < |s.cpus| && !s.cpus[c].Idle?
  {
    (s.cpus[c].ticket - Owner(s.word)) % HALF
  }

  lemma PlaceOf(s: State, queue: seq<nat>, c: nat) returns (i: nat)
    requires Inv(s, queue) && |s.cpus| <= HALF && c < |s.cpus| && !s.cpus[c].Idle?
    ensures i < |queue| && queue[i] == c && Ahead(s, c) == i
  {
    QueueFits(s, queue);
    i :| 0 <= i < |queue| && queue[i] == c;
    Slots(Owner(s.word), i);
  }

  lemma LockKeepsInv(s: State, queue: seq<nat>, c: nat)
    requires Inv(s, queue) && Enabled(s, Lock(c)) && |queue| < HALF
    ensures Inv(Next(s, Lock(c)), queue + [c])
  {
    HalvesIndependent(s.word);
    Slots(Owner(s.word), |queue|);
    hide Slot, Owner, NextTicket, TakeTicket;
  }

  lemma SpinKeepsInv(s: State, queue: seq<nat>, c: nat)
    requires Inv(s, queue) && Enabled(s, Spin(c)) && |queue| <= HALF
    ensures Inv(Next(s, Spin(c)), queue)
  {
    var i :| 0 <= i < |queue| && queue[i] == c;
    Slots(Owner(s.word), i);
    hide Slot, Owner, NextTicket, TakeTicket;
  }

  lemma UnlockKeepsInv(s: State, queue: seq<nat>, c: nat)
    requires Inv(s, queue) && Enabled(s, Unlock(c)) && |queue| <= HALF
    ensures queue != [] && queue[0] == c && Inv(Next(s, Unlock(c)), queue[1..])
  {
    var i :| 0 <= i < |queue| && queue[i] == c;
    assert i == 0;
    var s', queue' := Next(s, Unlock(c)), queue[1..];
    HalvesIndependent(s.word);
    forall k | 0 <= k < |queue| ensures Slot(Owner(s'.word), k) == Slot(Owner(s.word), k + 1) {
      Slots(Owner(s.word), k);
    }
    hide Slot, Owner, NextTicket, PassOn;
    assert forall k :: 0 <= k < |queue'| ==> queue'[k] == queue[k + 1];
  }

  lemma StepKeepsInv(s: State, queue: seq<nat>, step: Step)
    requires Inv(s, queue) && Enabled(s, step) && |s.cpus| <= HALF
    ensures Inv(Next(s, step), Requeue(queue, step))
  {
    QueueFits(s, queue);
    hide Inv;
    match step
    case Lock(c) => LockKeepsInv(s, queue, c);
    case Spin(c) => SpinKeepsInv(s, queue, c);
    case Unlock(c) => UnlockKeepsInv(s, queue, c);
  }

  // ---------- every run ----------

  /** The queue after a run, and the CPUs in the order they got their tickets and the lock. */
  datatype Trace = Trace(queue: seq<nat>, took: seq<nat>, entered: seq<nat>, left: nat)

  ghost function Track(s: State, step: Step, t: Trace): Trace
    requires Enabled(s, step)
  {
    var enters := !step.Unlock? && Next(s, step).cpus[step.c].Holding?;
    Trace(Requeue(t.queue, step),
          if step.Lock? then t.took + [step.c] else t.took,
          if enters then t.entered + [step.c] else t.entered,
          if step.Unlock? then t.left + 1 else t.left)
  }

  ghost function TrackRun(s: State, steps: seq<Step>, t: Trace): Trace
    requires IsRun(s, steps)
    decreases |steps|
  {
    if steps == [] then t else TrackRun(Next(s, steps[0]), steps[1..], Track(s, steps[0], t))
  }

  ghost predicate FirstHolds(s: State, queue: seq<nat>) {
    queue != [] && queue[0] < |s.cpus| && s.cpus[queue[0]].Holding?
  }

  /** Those who took tickets split into those who left and the queue; whoever entered is the past plus the holder. */
  ghost predicate TraceInv(s: State, t: Trace) {
    && Inv(s, t.queue)
    && t.left <= |t.took| && t.queue == t.took[t.left..]
    && t.entered == t.took[..t.left + if FirstHolds(s, t.queue) then 1 else 0]
  }

  /** Whether a step lets its CPU in, and whether the first of the queue holds the lock afterwards. */
  lemma WhoEnters(s: State, queue: seq<nat>, step: Step)
    requires Inv(s, queue) && Enabled(s, step) && |s.cpus| <= HALF
    ensures FirstHolds(s, queue) ==> queue != []
    ensures var s' := Next(s, step); var holds := FirstHolds(s', Requeue(queue, step));
      match step
      case Lock(c) => (s'.cpus[c].Holding? <==> queue == []) && holds == (queue == [] || FirstHolds(s, queue))
                      && (queue == [] ==> !FirstHolds(s, queue))
      case Spin(c) => queue != [] && (s'.cpus[c].Holding? <==> queue[0] == c)
        && holds == (queue[0] == c || FirstHolds(s, queue))
                      && (queue[0] == c ==> !FirstHolds(s, queue))
      case Unlock(c) => FirstHolds(s, queue) && !holds
  {
    QueueFits(s, queue);
    match step
    case Lock(c) =>
      Slots(Owner(s.word), |queue|);
      hide Slot, NextTicket, Owner, TakeTicket;
    case Spin(c) =>
      var i := PlaceOf(s, queue, c);
      Slots(Owner(s.word), i);
      hide Slot, NextTicket, Owner;
    case Unlock(c) =>
      UnlockKeepsInv(s, queue, c);
      hide Slot, NextTicket, Owner, PassOn;
  }

  lemma TrackKeepsInv(s: State, step: Step, t: Trace)
    requires TraceInv(s, t) && Enabled(s, step) && |s.cpus| <= HALF
    ensures TraceInv(Next(s, step), Track(s, step, t))
  {
    hide Inv, FirstHolds, Next;
    WhoEnters(s, t.queue, step);
    StepKeepsInv(s, t.queue, step);
    var t' := Track(s, step, t);
    match step
    case Lock(c) => assert (t.took + [c])[t.left..] == t.queue + [c];
    case Spin(c) => assert t.took[..t.left + 1] == t.took[..t.left] + [t.queue[0]];
    case Unlock(c) => assert t.took[t.left..][1..] == t.took[t.left + 1..];
    assert t'.entered == t'.took[..t'.left + if FirstHolds(Next(s, step), t'.queue) then 1 else 0];
  }

  lemma {:induction false} RunKeepsInv(s: State, steps: seq<Step>, t: Trace)
    requires TraceInv(s, t) && IsRun(s, steps) && |s.cpus| <= HALF
    ensures TraceInv(After(s, steps), TrackRun(s, steps, t)) && |After(s, steps).cpus| == |s.cpus|
    decreases |steps|
  {
    hide TraceInv;
    if steps != [] {
      TrackKeepsInv(s, steps[0], t);
      RunKeepsInv(Next(s, steps[0]), steps[1..], Track(s, steps[0], t));
    }
  }

  const FRESH: Trace := Trace([], [], [], 0)

  /** At most one CPU holds the lock, and CPUs enter in exactly the order they took tickets. */
  lemma ExclusiveAndFair(n: nat, steps: seq<Step>)
    requires n <= HALF && IsRun(Init(n), steps)
    ensures Exclusive(After(Init(n), steps))
    ensures TrackRun(Init(n), steps, FRESH).entered <= TrackRun(Init(n), steps, FRESH).took
  {
    RunKeepsInv(Init(n), steps, FRESH);
    HolderIsFirst(After(Init(n), steps), TrackRun(Init(n), steps, FRESH).queue);
  }

  lemma HolderIsFirst(s: State, queue: seq<nat>)
    requires Inv(s, queue)
    ensures Exclusive(s)
    ensures forall c :: 0 <= c < |s.cpus| && s.cpus[c].Holding? ==> queue != [] && queue[0] == c
  {
    forall c | 0 <= c < |s.cpus| && s.cpus[c].Holding? ensures queue != [] && queue[0] == c {
      var i :| 0 <= i < |queue| && queue[i] == c;
      assert i == 0;
    }
  }

  // ---------- how long a waiter waits ----------

  ghost function Unlocks(steps: seq<Step>): nat {
    if steps == [] then 0 else (if steps[0].Unlock? then 1 else 0) + Unlocks(steps[1..])
  }

  /** One step of another CPU, or a try of `c` itself, moves `c` up by one place per unlock. */
  lemma StepMovesUp(s: State, queue: seq<nat>, step: Step, c: nat)
    requires Inv(s, queue) && Enabled(s, step) && |s.cpus| <= HALF
    requires c < |s.cpus| && !s.cpus[c].Idle? && step != Unlock(c)
    ensures var s' := Next(s, step);
      && !s'.cpus[c].Idle? && Ahead(s', c) == Ahead(s, c) - (if step.Unlock? then 1 else 0)
  {
    var s', queue' := Next(s, step), Requeue(queue, step);
    hide Ahead, Slot, Owner, NextTicket, TakeTicket, PassOn;
    var i := PlaceOf(s, queue, c);
    StepKeepsInv(s, queue, step);
    var j := PlaceOf(s', queue', c);
    if step.Unlock? {
      QueueFits(s, queue);
      UnlockKeepsInv(s, queue, step.c);
      assert queue[j + 1] == c;
    }
  }

  /**
   While `c` waits for or holds the lock, every run makes at most as many unlocks
   as tickets are ahead of it; `c` holds the lock only after exactly that many,
   and then its next look at the word succeeds.
   */
  lemma {:induction false} WaitsExactly(s: State, queue: seq<nat>, steps: seq<Step>, c: nat)
    requires Inv(s, queue) && IsRun(s, steps) && |s.cpus| <= HALF
    requires c < |s.cpus| && !s.cpus[c].Idle? && forall i :: 0 <= i < |steps| ==> steps[i] != Unlock(c)
    ensures var s' := After(s, steps);
      && |s'.cpus| == |s.cpus| && !s'.cpus[c].Idle? && Unlocks(steps) <= Ahead(s, c)
      && (s'.cpus[c].Holding? ==> Unlocks(steps) == Ahead(s, c))
      && (s'.cpus[c].Waiting? && Unlocks(steps) == Ahead(s, c) ==> Next(s', Spin(c)).cpus[c].Holding?)
    decreases |steps|
  {
    if steps == [] {
      var i := PlaceOf(s, queue, c);
      Slots(Owner(s.word), i);
    } else {
      StepMovesUp(s, queue, steps[0], c);
      StepKeepsInv(s, queue, steps[0]);
      WaitsExactly(Next(s, steps[0]), Requeue(queue, steps[0]), steps[1..], c);
    }
  }

  // ---------- the bound on the number of CPUs is exact ----------

  lemma {:induction false} Extend(s: State, steps: seq<Step>, last: Step)
    requires IsRun(s, steps) && Enabled(After(s, steps), last)
    ensures IsRun(s, steps + [last]) && After(s, steps + [last]) == Next(After(s, steps), last)
    decreases |steps|
  {
    if steps == [] {
      assert steps + [last] == [last];
      assert IsRun(Next(s, last), []);
    } else {
      Extend(Next(s, steps[0]), steps[1..], last);
      assert (steps + [last])[0] == steps[0] && (steps + [last])[1..] == steps[1..] + [last];
    }
  }

  /** CPUs 0 to k-1 take one ticket each; none gives the lock back. */
  lemma {:induction false} Crowd(n: nat, k: nat) returns (steps: seq<Step>)
    requires k <= HALF && k <= n
    ensures IsRun(Init(n), steps)
    ensures After(Init(n), steps).word == k * HALF % FULL
    ensures |After(Init(n), steps).cpus| == n
    ensures forall c :: 0 <= c < n ==>
      After(Init(n), steps).cpus[c] == if c == 0 < k then Holding(0) else if c < k then Waiting(c) else Idle
  {
    if k == 0 {
      steps := [];
    } else {
      steps := Crowd(n, k - 1);
      var s := After(Init(n), steps);
      assert s.word == (k - 1) * HALF && NextTicket(s.word) == k - 1 && Owner(s.word) == 0;
      Extend(Init(n), steps, Lock(k - 1));
      steps := steps + [Lock(k - 1)];
    }
  }

  ghost predicate SafeFor(n: nat) {
    forall steps :: IsRun(Init(n), steps) ==> Exclusive(After(Init(n), steps))
  }

  /** Mutual exclusion over every run holds exactly up to 2^16 CPUs. */
  lemma SafeIffTicketsSuffice(n: nat)
    ensures SafeFor(n) <==> n <= HALF
  {
    if n <= HALF {
      forall steps | IsRun(Init(n), steps) ensures Exclusive(After(Init(n), steps)) {
        ExclusiveAndFair(n, steps);
      }
    } else {
      var steps := Crowd(n, HALF);
      var s := After(Init(n), steps);
      Extend(Init(n), steps, Lock(HALF));
      var all := steps + [Lock(HALF)];
      var s' := After(Init(n), all);
      assert s'.cpus[0].Holding? && s'.cpus[HALF].Holding?;
      assert IsRun(Init(n), all) && !Exclusive(s');
    }
  }

  /** The lock is never stuck: the oldest ticket is either holding or enters on its next try. */
  lemma OldestProceeds(s: State, queue: seq<nat>)
    requires Inv(s, queue) && queue != []
    ensures var c := queue[0];
      c < |s.cpus| && (s.cpus[c].Holding? || (Enabled(s, Spin(c)) && Next(s, Spin(c)).cpus[c].Holding?))
  {
    Slots(Owner(s.word), 0);
  }
}
