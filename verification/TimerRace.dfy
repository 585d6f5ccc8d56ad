/**
 A timer interrupt inside timer_task_insert. Client calls run with interrupts on
 (timer.c:125-173 only reads the flags), so passes of the timers may fall between
 two turns of the insertion loop of timer.c:81-94, while its local pointer `tmp`
 points at the `next` field of some slot. The timer functions make no requests here.
 */
module TimerRace {
  import opened Dll
  import opened TimerList

  /** A slot of the pool with its fields. */
  datatype Cell = Cell(slot: nat, delta: int, key: Key)

  /** The active list and the pool, as their links order them. */
  datatype Lists = Lists(active: seq<Cell>, pool: seq<Cell>)

  function TaskOf(c: Cell): Task { Task(c.delta, c.key) }

  function TaskList(cs: seq<Cell>): (ts: seq<Task>)
    ensures |ts| == |cs| && forall i :: 0 <= i < |cs| ==> ts[i] == TaskOf(cs[i])
  {
    seq(|cs|, i requires 0 <= i < |cs| => TaskOf(cs[i]))
  }

  predicate Holds(cs: seq<Cell>, slot: nat) {
    exists i :: 0 <= i < |cs| && cs[i].slot == slot
  }

  ghost predicate Distinct(cs: seq<Cell>) {
    forall i, j :: 0 <= i < j < |cs| ==> cs[i].slot != cs[j].slot
  }

  ghost predicate Apart(cs: seq<Cell>, ds: seq<Cell>) {
    forall i, j :: 0 <= i < |cs| && 0 <= j < |ds| ==> cs[i].slot != ds[j].slot
  }

  /** Slots are on one list, once; NULL is none of them. */
  ghost predicate Sound(m: Lists) {
    && Distinct(m.active) && Distinct(m.pool) && Apart(m.active, m.pool)
    && !Holds(m.active, NULL) && !Holds(m.pool, NULL)
  }

  // ---------- a pass ----------

  /** No timer function asks the timer for anything; the kernel's only one wakes processes (tty.c:22-26). */
  function Quiet(k: Key): seq<Request> { [] }

  /** timer_task_bh: ripe slots go to the pool one by one. */
  function Drained(m: Lists): Lists
    decreases |m.active|
  {
    if m.active == [] || m.active[0].delta != 0 then m
    else Drained(Lists(m.active[1..], [m.active[0]] + m.pool))
  }

  function Ticked(cs: seq<Cell>): seq<Cell> {
    if cs != [] && cs[0].delta > 0 then [cs[0].(delta := cs[0].delta - 1)] + cs[1..] else cs
  }

  /** An interrupt with its bottom halves. */
  function Interrupted(m: Lists): Lists {
    var m1 := m.(active := Ticked(m.active));
    if Wakes(TaskList(m.active)) then Drained(m1) else m1
  }

  // ---------- a turn ----------

  /** The place behind the slot whose `next` field `tmp` points at; NULL stands for tt_head. */
  function Behind(cs: seq<Cell>, at: nat): (i: nat)
    requires at == NULL || Holds(cs, at)
    ensures i <= |cs| && (if at == NULL then i == 0 else i > 0 && cs[i - 1].slot == at)
  {
    if at == NULL then 0
    else
      assert cs != [];
      if cs[|cs| - 1].slot == at then |cs| else Behind(cs[..|cs| - 1], at)
  }

  /**
   Where the loop stands after a turn: the slot `tmp` points into and what is left of
   the ticks, or the list with the new slot linked in.
   */
  datatype Turned = Beyond(at: nat, cell: Cell) | Placed(cells: seq<Cell>)

  /** One turn on the list that `tmp` points into. */
  function TurnOn(cs: seq<Cell>, i: nat, c: Cell): Turned
    requires i <= |cs|
  {
    if i == |cs| then Placed(cs + [c])
    else if cs[i].delta > c.delta then
      Placed(cs[..i] + [c, cs[i].(delta := cs[i].delta - c.delta)] + cs[i + 1..])
    else Beyond(cs[i].slot, c.(delta := c.delta - cs[i].delta))
  }

  datatype Moment = NextTurn | TimerTick

  /**
   The lists when timer_task_insert is done, the keys fired meanwhile, and the passes
   before and after its first turn.
   */
  datatype Outcome = Outcome(lists: Lists, fired: seq<Key>, before: nat, after: nat)

  /** The slots a pass fires. */
  function Fired(m: Lists): nat {
    Ripe(TaskList(Ticked(m.active)))
  }

  function KeysOf(xs: seq<Task>): seq<Key> {
    seq(|xs|, i requires 0 <= i < |xs| => xs[i].key)
  }

  ghost predicate Standing(m: Lists, at: nat) {
    Sound(m) && (at == NULL || Holds(m.active, at) || Holds(m.pool, at))
  }

  /** Is `tmp` a place on the active list? */
  predicate OnActive(m: Lists, at: nat) {
    at == NULL || Holds(m.active, at)
  }

  /** What lies behind `tmp`. */
  function Ahead(m: Lists, at: nat): nat
    requires OnActive(m, at) || Holds(m.pool, at)
  {
    if OnActive(m, at) then |m.active| - Behind(m.active, at) else |m.pool| - Behind(m.pool, at)
  }

  /**
   timer_task_insert from the loop's test on, with an interrupt wherever the plan
   has one before the next turn; where the plan ends no more interrupts come.
   */
  ghost function Run(m: Lists, at: nat, c: Cell, plan: seq<Moment>): Outcome
    requires Standing(m, at)
    decreases |plan|, Ahead(m, at)
  {
    if plan != [] && plan[0] == TimerTick then
      InterruptedIs(m);
      var r := Run(Interrupted(m), at, c, plan[1..]);
      r.(fired := KeysOf(TaskList(m.active)[..Fired(m)]) + r.fired,
         before := if at == NULL then r.before + 1 else r.before, after := if at == NULL then r.after else r.after + 1)
    else
      var rest := if plan == [] then [] else plan[1..];
      var cs := if OnActive(m, at) then m.active else m.pool;
      match TurnOn(cs, Behind(cs, at), c)
      case Placed(ds) => Outcome(if OnActive(m, at) then m.(active := ds) else m.(pool := ds), [], 0, 0)
      case Beyond(next, c') =>
        TurnAdvances(m, at);
        Run(m, next, c', rest)
  }

  lemma TurnAdvances(m: Lists, at: nat)
    requires Standing(m, at)
    ensures var cs := if OnActive(m, at) then m.active else m.pool;
      var i := Behind(cs, at);
      i < |cs| ==>
        && Standing(m, cs[i].slot) && OnActive(m, cs[i].slot) == OnActive(m, at)
        && Behind(cs, cs[i].slot) == i + 1 && Ahead(m, cs[i].slot) == Ahead(m, at) - 1
  {
    var cs := if OnActive(m, at) then m.active else m.pool;
    var i := Behind(cs, at);
    if i < |cs| {
      assert Holds(cs, cs[i].slot);
      BehindIs(cs, i);
    }
  }

  lemma BehindIs(cs: seq<Cell>, i: nat)
    requires Distinct(cs) && i < |cs| && cs[i].slot != NULL
    ensures Holds(cs, cs[i].slot) && Behind(cs, cs[i].slot) == i + 1
  {
    assert Holds(cs, cs[i].slot);
    var k := Behind(cs, cs[i].slot);
    assert cs[k - 1].slot == cs[i].slot;
  }

  lemma {:induction false} DrainedIs(m: Lists)
    requires Sound(m)
    ensures var r, j := Drained(m), Ripe(TaskList(m.active));
      && Sound(r) && j <= |m.active| && r.active == m.active[j..]
      && (forall s :: Holds(r.pool, s) <==> Holds(m.pool, s) || Holds(m.active[..j], s))
    decreases |m.active|
  {
    if m.active != [] && m.active[0].delta == 0 {
      var m1 := Lists(m.active[1..], [m.active[0]] + m.pool);
      FirstMoves(m);
      DrainedIs(m1);
      var j := Ripe(TaskList(m1.active));
      assert TaskList(m.active)[1..] == TaskList(m1.active);
      assert m.active[..j + 1] == [m.active[0]] + m1.active[..j];
      HoldsCons(m.active[0], m1.active[..j]);
      HoldsCons(m.active[0], m.pool);
    }
  }

  lemma HoldsCons(c: Cell, cs: seq<Cell>)
    ensures forall s :: Holds([c] + cs, s) <==> s == c.slot || Holds(cs, s)
  {
    var ds := [c] + cs;
    assert ds[0] == c && forall i :: 0 <= i < |cs| ==> ds[i + 1] == cs[i];
  }

  lemma FirstMoves(m: Lists)
    requires Sound(m) && m.active != []
    ensures Sound(Lists(m.active[1..], [m.active[0]] + m.pool))
  {
    HoldsCons(m.active[0], m.pool);
    HoldsCons(m.active[0], m.active[1..]);
    assert m.active == [m.active[0]] + m.active[1..];
  }

  lemma HoldsAt(cs: seq<Cell>, i: nat)
    requires i < |cs|
    ensures Holds(cs, cs[i].slot)
  {
  }

  lemma HoldsSame(cs: seq<Cell>, ds: seq<Cell>)
    requires |cs| == |ds| && forall i :: 0 <= i < |cs| ==> cs[i].slot == ds[i].slot
    ensures forall s :: Holds(cs, s) <==> Holds(ds, s)
    ensures Distinct(cs) <==> Distinct(ds)
  {
    forall s ensures Holds(cs, s) <==> Holds(ds, s) {
      if Holds(cs, s) {
        var i :| 0 <= i < |cs| && cs[i].slot == s;
        assert ds[i].slot == s;
      }
    }
  }

  lemma HoldsSplit(cs: seq<Cell>, j: nat)
    requires j <= |cs|
    ensures forall s :: Holds(cs, s) <==> Holds(cs[..j], s) || Holds(cs[j..], s)
  {
    forall s ensures Holds(cs, s) <==> Holds(cs[..j], s) || Holds(cs[j..], s) {
      if Holds(cs, s) {
        var i :| 0 <= i < |cs| && cs[i].slot == s;
        if i < j { assert cs[..j][i].slot == s; } else { assert cs[j..][i - j].slot == s; }
      }
    }
  }

  /** A tick changes no slot, and is the tick of the tasks. */
  lemma TickedAt(cs: seq<Cell>)
    ensures |Ticked(cs)| == |cs|
    ensures forall i :: 0 <= i < |cs| ==> Ticked(cs)[i].slot == cs[i].slot && Ticked(cs)[i].key == cs[i].key
    ensures TaskList(Ticked(cs)) == Tick(TaskList(cs))
  {
  }

  lemma TickedSlots(m: Lists)
    requires Sound(m)
    ensures Sound(m.(active := Ticked(m.active))) && |Ticked(m.active)| == |m.active|
    ensures forall i :: 0 <= i < |m.active| ==> Ticked(m.active)[i].slot == m.active[i].slot
    ensures TaskList(Ticked(m.active)) == Tick(TaskList(m.active))
  {
    hide Ticked, Tick, Holds, Distinct;
    TickedAt(m.active);
    HoldsSame(m.active, Ticked(m.active));
  }

  lemma TickedFront(cs: seq<Cell>, j: nat)
    requires j <= |cs|
    ensures |Ticked(cs)| == |cs|
    ensures forall s :: Holds(Ticked(cs)[..j], s) <==> Holds(cs[..j], s)
    ensures forall s :: Holds(Ticked(cs)[j..], s) <==> Holds(cs[j..], s)
  {
    hide Ticked, Holds;
    TickedAt(cs);
    HoldsSame(cs[..j], Ticked(cs)[..j]);
    HoldsSame(cs[j..], Ticked(cs)[j..]);
  }

  lemma InterruptedIs(m: Lists)
    requires Sound(m)
    ensures var r, j := Interrupted(m), Fired(m);
      && Sound(r) && j <= |m.active| && r.active == Ticked(m.active)[j..]
      && (forall s :: Holds(m.active, s) || Holds(m.pool, s) ==> Holds(r.active, s) || Holds(r.pool, s))
      && (forall s :: Holds(r.pool, s) <==> Holds(m.pool, s) || Holds(m.active[..j], s))
  {
    hide Ticked, Tick, Holds, Distinct, Sound, Drained;
    TickedSlots(m);
    DrainedIs(m.(active := Ticked(m.active)));
    TickedFront(m.active, Fired(m));
    HoldsSplit(m.active, Fired(m));
    NotWoken(m.active);
  }

  lemma NotWoken(cs: seq<Cell>)
    ensures !Wakes(TaskList(cs)) ==> Ripe(TaskList(Ticked(cs))) == 0
    ensures |Ticked(cs)| == |cs| && Ticked(cs)[0..] == Ticked(cs) && !Holds(cs[..0], NULL)
    ensures forall s :: !Holds(cs[..0], s)
  {
  }

  // ---------- a pass on tasks, when nobody asks for anything ----------

  /** The list that the insertion of `t` will yield, once it has passed position i. */
  function Finished(xs: seq<Task>, i: nat, t: Task): seq<Task>
    requires i <= |xs|
  {
    xs[..i] + Insert(xs[i..], t)
  }

  lemma RipeBound(xs: seq<Task>)
    ensures Ripe(xs) <= |xs|
  {
  }

  lemma {:induction false} QuietDrain(xs: seq<Task>)
    requires Ok(xs)
    ensures Ripe(xs) <= |xs| && Drain(xs, Quiet) == (xs[Ripe(xs)..], KeysOf(xs[..Ripe(xs)]))
    decreases |xs|
  {
    if xs != [] && xs[0].delta == 0 {
      TailOk(xs);
      QuietDrain(xs[1..]);
      var j := Ripe(xs[1..]);
      assert ServeAll(xs[1..], Quiet(xs[0].key)) == xs[1..];
      assert xs[1..][j..] == xs[j + 1..];
      assert KeysOf(xs[..j + 1]) == [xs[0].key] + KeysOf(xs[1..][..j]);
    } else {
      assert KeysOf(xs[..0]) == [];
    }
  }

  /** One pass cuts the ripe tasks off the front. */
  lemma QuietPass(xs: seq<Task>)
    requires Pending(xs)
    ensures var j := Ripe(Tick(xs));
      && j <= |xs| && Pass(xs, Quiet) == (Tick(xs)[j..], KeysOf(xs[..j])) && Pending(Pass(xs, Quiet).0)
  {
    TickOk(xs);
    QuietDrain(Tick(xs));
    assert KeysOf(Tick(xs)[..Ripe(Tick(xs))]) == KeysOf(xs[..Ripe(Tick(xs))]);
  }

  lemma {:induction false} RipeFront(xs: seq<Task>, i: nat, tail: seq<Task>)
    requires i <= |xs| && Ripe(xs) < i
    ensures Ripe(xs[..i] + tail) == Ripe(xs)
  {
    if xs[0].delta == 0 {
      RipeFront(xs[1..], i - 1, tail);
      assert (xs[..i] + tail)[1..] == xs[1..][..i - 1] + tail;
    }
  }

  lemma TickFront(xs: seq<Task>, i: nat, tail: seq<Task>)
    requires 0 < i <= |xs|
    ensures |Tick(xs)| == |xs| && Tick(xs[..i] + tail) == Tick(xs)[..i] + tail && Tick(xs)[i..] == xs[i..]
  {
  }

  lemma SliceFront(ys: seq<Task>, i: nat, j: nat, tail: seq<Task>)
    requires j <= i <= |ys|
    ensures (ys[..i] + tail)[j..] == ys[j..][..i - j] + tail && ys[j..][i - j..] == ys[i..]
    ensures (ys[..i] + tail)[..j] == ys[..j]
  {
  }

  /** A pass that does not fire the task just passed finishes the same way, one pass later. */
  lemma PassFinished(xs: seq<Task>, i: nat, t: Task)
    requires Pending(xs) && Ripe(Tick(xs)) < i <= |xs| && Pending(Finished(xs, i, t))
    ensures var j := Ripe(Tick(xs));
      && j <= i <= |Pass(xs, Quiet).0| + j
      && Pass(Finished(xs, i, t), Quiet) == (Finished(Pass(xs, Quiet).0, i - j, t), Pass(xs, Quiet).1)
  {
    hide Pending, Ok, Insert, Tick, Ripe, Pass, KeysOf;
    PendingOk(xs);
    PendingOk(Finished(xs, i, t));
    var tail, j := Insert(xs[i..], t), Ripe(Tick(xs));
    QuietPass(xs);
    QuietPass(Finished(xs, i, t));
    TickFront(xs, i, tail);
    RipeFront(Tick(xs), i, tail);
    SliceFront(Tick(xs), i, j, tail);
    SliceFront(xs, i, j, tail);
  }

  lemma PendingOk(xs: seq<Task>)
    requires Pending(xs)
    ensures Ok(xs)
  {
  }

  /** `n` passes in a row. */
  ghost function Repeated(xs: seq<Task>, n: nat): (r: (seq<Task>, seq<Key>))
    requires Ok(xs)
    ensures Ok(r.0)
    decreases n
  {
    if n == 0 then (xs, [])
    else
      var (ys, f) := Pass(xs, Quiet);
      var (zs, g) := Repeated(ys, n - 1);
      (zs, f + g)
  }

  /** The pass on the slots is the pass on the tasks. */
  lemma PassOnSlots(m: Lists)
    requires Sound(m) && Pending(TaskList(m.active))
    ensures Sound(Interrupted(m)) && Fired(m) <= |m.active|
    ensures Pass(TaskList(m.active), Quiet)
      == (TaskList(Interrupted(m).active), KeysOf(TaskList(m.active)[..Fired(m)]))
    ensures Pending(TaskList(Interrupted(m).active))
  {
    hide Pending, Sound;
    TickedSlots(m);
    InterruptedIs(m);
    QuietPass(TaskList(m.active));
    assert TaskList(Interrupted(m).active) == Tick(TaskList(m.active))[Fired(m)..];
  }

  // ---------- the walk that loses its place ----------

  /** A pass takes the slot that `tmp` points into off the active list. */
  predicate FiresAt(m: Lists, at: nat) {
    Holds(m.active, at) && !Holds(Interrupted(m).active, at)
  }

  /** Sometime during the insertion a pass fires the task whose `next` field `tmp` points at. */
  ghost predicate Overtaken(m: Lists, at: nat, c: Cell, plan: seq<Moment>)
    requires Standing(m, at)
    decreases |plan|
  {
    plan != [] &&
    if plan[0] == TimerTick then
      InterruptedIs(m);
      FiresAt(m, at) || Overtaken(Interrupted(m), at, c, plan[1..])
    else
      var cs := if OnActive(m, at) then m.active else m.pool;
      TurnAdvances(m, at);
      match TurnOn(cs, Behind(cs, at), c)
      case Placed(_) => false
      case Beyond(next, c') => Overtaken(m, next, c', plan[1..])
  }

  /** Once in the pool the walk stays there: the active list goes on without the new task, which ends up in the pool. */
  lemma {:induction false} LostWalk(m: Lists, at: nat, c: Cell, plan: seq<Moment>)
    requires Standing(m, at) && !OnActive(m, at) && Pending(TaskList(m.active))
    ensures var r := Run(m, at, c, plan);
      && r.before == 0 && (TaskList(r.lists.active), r.fired) == Repeated(TaskList(m.active), r.after)
      && Holds(r.lists.pool, c.slot)
    decreases |plan|, Ahead(m, at)
  {
    hide Pending, Sound;
    if plan != [] && plan[0] == TimerTick {
      InterruptedIs(m);
      PassOnSlots(m);
      StillLost(m, at);
      LostWalk(Interrupted(m), at, c, plan[1..]);
    } else {
      TurnAdvances(m, at);
      var i := Behind(m.pool, at);
      match TurnOn(m.pool, i, c) {
        case Placed(ds) => assert ds[i] == c;
        case Beyond(next, c') => LostWalk(m, next, c', if plan == [] then [] else plan[1..]);
      }
    }
  }

  lemma StillLost(m: Lists, at: nat)
    requires Sound(m) && at != NULL && Holds(m.pool, at)
    ensures Holds(Interrupted(m).pool, at) && !OnActive(Interrupted(m), at)
  {
    InterruptedIs(m);
    hide Interrupted;
  }

  /** Where `tmp` stands after a pass. */
  lemma PlaceAfterPass(m: Lists, at: nat)
    requires Sound(m) && at != NULL && Holds(m.active, at)
    ensures Sound(Interrupted(m))
    ensures var i := Behind(m.active, at);
      if FiresAt(m, at) then i <= Fired(m) && Holds(Interrupted(m).pool, at) && !OnActive(Interrupted(m), at)
      else Fired(m) < i && Holds(Interrupted(m).active, at) && Behind(Interrupted(m).active, at) == i - Fired(m)
  {
    hide Ticked, Holds, Interrupted, Fired, Sound;
    TickedSlots(m);
    InterruptedIs(m);
    var i, j, r := Behind(m.active, at), Fired(m), Interrupted(m);
    if i <= j {
      HoldsAt(m.active[..j], i - 1);
      NotBoth(r, at);
    } else {
      HoldsAt(r.active, i - 1 - j);
      BehindIs(r.active, i - 1 - j) by { NotBoth(r, at); }
    }
  }

  lemma NotBoth(m: Lists, at: nat)
    requires Sound(m)
    ensures !(Holds(m.active, at) && Holds(m.pool, at)) && Distinct(m.active)
  {
  }

  lemma {:induction false} UniqueKeys(xs: seq<Task>, i: nat, j: nat)
    requires Unique(xs) && i < j < |xs|
    ensures xs[i].key != xs[j].key
  {
    if i > 0 {
      UniqueKeys(xs[1..], i - 1, j - 1);
    } else {
      assert xs[1..][j - 1] == xs[j];
    }
  }

  /** That is so iff the task there has one tick to go. */
  lemma FiresAtIff(m: Lists, at: nat)
    requires Sound(m) && Pending(TaskList(m.active)) && at != NULL && Holds(m.active, at)
    ensures FiresAt(m, at) <==> Remaining(TaskList(m.active), m.active[Behind(m.active, at) - 1].key) == 1
  {
    hide Pending, Sound, Interrupted, Pass, Remaining, FiresAt, Ok, KeysOf, Keys;
    var xs, i := TaskList(m.active), Behind(m.active, at);
    PlaceAfterPass(m, at);
    PassOnSlots(m);
    QuietlyOnTime(xs, i - 1);
    AmongFirst(xs, Fired(m), i - 1);
  }

  lemma QuietlyOnTime(xs: seq<Task>, i: nat)
    requires Pending(xs) && i < |xs|
    ensures xs[i].key in Pass(xs, Quiet).1 <==> Remaining(xs, xs[i].key) == 1
  {
    PassOnTime(xs, Quiet, xs[i].key);
  }

  lemma AmongFirst(xs: seq<Task>, j: nat, i: nat)
    requires Pending(xs) && j <= |xs| && i < |xs|
    ensures xs[i].key in KeysOf(xs[..j]) <==> i < j
  {
    if i < j {
      assert KeysOf(xs[..j])[i] == xs[i].key;
    } else {
      forall l | 0 <= l < j ensures xs[l].key != xs[i].key { UniqueKeys(xs, l, i); }
    }
  }

  // ---------- when an interrupted insertion is right ----------

  /** A turn that goes on leaves the same list to be yielded; one that links yields it. */
  lemma TurnFinished(cs: seq<Cell>, i: nat, c: Cell)
    requires i <= |cs|
    ensures match TurnOn(cs, i, c)
      case Placed(ds) => TaskList(ds) == Finished(TaskList(cs), i, TaskOf(c))
      case Beyond(_, c') =>
        && i < |cs| && c'.slot == c.slot && c'.key == c.key
        && Finished(TaskList(cs), i + 1, TaskOf(c')) == Finished(TaskList(cs), i, TaskOf(c))
  {
    var xs, t := TaskList(cs), TaskOf(c);
    if i < |cs| {
      assert xs[i..][1..] == xs[i + 1..];
      if cs[i].delta <= c.delta {
        var t' := t.(delta := t.delta - xs[i].delta);
        assert Insert(xs[i..], t) == [xs[i]] + Insert(xs[i + 1..], t');
        assert xs[..i + 1] == xs[..i] + [xs[i]];
      }
    } else {
      assert xs[..i] == xs && xs[i..] == [];
    }
  }

  function Rest(plan: seq<Moment>): seq<Moment> {
    if plan == [] then [] else plan[1..]
  }

  lemma RunTick(m: Lists, at: nat, c: Cell, plan: seq<Moment>)
    requires Standing(m, at) && plan != [] && plan[0] == TimerTick
    ensures Standing(Interrupted(m), at)
    ensures Overtaken(m, at, c, plan) == (FiresAt(m, at) || Overtaken(Interrupted(m), at, c, plan[1..]))
    ensures var r, s := Run(m, at, c, plan), Run(Interrupted(m), at, c, plan[1..]);
      && Fired(m) <= |m.active| && r.lists == s.lists && r.fired == KeysOf(TaskList(m.active)[..Fired(m)]) + s.fired
      && (at == NULL ==> r.before == s.before + 1 && r.after == s.after)
      && (at != NULL ==> r.before == s.before && r.after == s.after + 1)
  {
    InterruptedIs(m);
    hide Sound, Interrupted, Holds;
  }

  lemma RunTurn(m: Lists, at: nat, c: Cell, plan: seq<Moment>)
    requires Standing(m, at) && OnActive(m, at) && !(plan != [] && plan[0] == TimerTick)
    ensures var i := Behind(m.active, at);
      match TurnOn(m.active, i, c)
      case Placed(ds) =>
        Run(m, at, c, plan) == Outcome(m.(active := ds), [], 0, 0) && !Overtaken(m, at, c, plan)
      case Beyond(next, c') =>
        && i < |m.active| && next == m.active[i].slot && next != NULL
        && Standing(m, next) && Holds(m.active, next) && Behind(m.active, next) == i + 1
        && Ahead(m, next) < Ahead(m, at)
        && Run(m, at, c, plan) == Run(m, next, c', Rest(plan))
        && Overtaken(m, at, c, plan) == Overtaken(m, next, c', Rest(plan))
  {
    TurnAdvances(m, at);
    SlotsNotNull(m);
    hide Sound;
  }

  lemma SlotsNotNull(m: Lists)
    requires Sound(m)
    ensures forall i :: 0 <= i < |m.active| ==> m.active[i].slot != NULL
  {
  }

  /** The rest of an insertion that has passed at least one task. */
  lemma {:induction false} WalkMeets(m: Lists, at: nat, c: Cell, plan: seq<Moment>)
    requires Standing(m, at) && at != NULL && Holds(m.active, at) && Pending(TaskList(m.active))
    requires Pending(Finished(TaskList(m.active), Behind(m.active, at), TaskOf(c)))
    ensures var r := Run(m, at, c, plan);
      && r.before == 0
      && (TaskList(r.lists.active), r.fired) ==
           Repeated(if Overtaken(m, at, c, plan) then TaskList(m.active)
                    else Finished(TaskList(m.active), Behind(m.active, at), TaskOf(c)), r.after)
    decreases |plan|, Ahead(m, at)
  {
    hide Pending, Finished, TurnOn, Insert, Run, Overtaken, Standing, Interrupted, Pass, FiresAt, KeysOf;
    var xs, i := TaskList(m.active), Behind(m.active, at);
    if plan != [] && plan[0] == TimerTick {
      RunTick(m, at, c, plan);
      PassedOn(m, at, c);
      if FiresAt(m, at) {
        LostWalk(Interrupted(m), at, c, plan[1..]);
      } else {
        WalkMeets(Interrupted(m), at, c, plan[1..]);
      }
    } else {
      RunTurn(m, at, c, plan);
      TurnFinished(m.active, i, c);
      match TurnOn(m.active, i, c) {
        case Placed(ds) =>
        case Beyond(next, c') => WalkMeets(m, next, c', Rest(plan));
      }
    }
  }

  lemma FiredIs(m: Lists)
    requires Sound(m)
    ensures Fired(m) == Ripe(Tick(TaskList(m.active)))
  {
    TickedSlots(m);
  }

  /** A pass in the middle of an insertion. */
  lemma PassedOn(m: Lists, at: nat, c: Cell)
    requires Standing(m, at) && at != NULL && Holds(m.active, at) && Pending(TaskList(m.active))
    requires Pending(Finished(TaskList(m.active), Behind(m.active, at), TaskOf(c)))
    ensures Pending(TaskList(Interrupted(m).active)) && Fired(m) <= |m.active|
    ensures Pass(TaskList(m.active), Quiet)
      == (TaskList(Interrupted(m).active), KeysOf(TaskList(m.active)[..Fired(m)]))
    ensures FiresAt(m, at) ==> Holds(Interrupted(m).pool, at) && !OnActive(Interrupted(m), at)
    ensures !FiresAt(m, at) ==>
      && Holds(Interrupted(m).active, at)
      && var g := Finished(TaskList(Interrupted(m).active), Behind(Interrupted(m).active, at), TaskOf(c));
         && Pending(g)
         && Pass(Finished(TaskList(m.active), Behind(m.active, at), TaskOf(c)), Quiet)
              == (g, KeysOf(TaskList(m.active)[..Fired(m)]))
  {
    hide Pending, Sound, Finished, Insert, Interrupted, Pass, FiresAt, KeysOf;
    hide Holds, Ripe, Tick, Fired, Ok, Ticked, Wakes;
    var xs, i := TaskList(m.active), Behind(m.active, at);
    PassOnSlots(m);
    PlaceAfterPass(m, at);
    if !FiresAt(m, at) {
      FiredIs(m);
      PassFinished(xs, i, TaskOf(c));
      QuietPass(Finished(xs, i, TaskOf(c)));
    }
  }

  /** A task that may be added: its own slot and key, at least one tick, and a list with room. */
  ghost predicate Addable(m: Lists, c: Cell) {
    && Sound(m) && Pending(TaskList(m.active)) && |m.active| < SLOTS
    && 1 <= c.delta <= INT_MAX && c.key !in Keys(TaskList(m.active))
  }

  lemma InsertPending(xs: seq<Task>, t: Task)
    requires Pending(xs) && |xs| < SLOTS && 1 <= t.delta <= INT_MAX && t.key !in Keys(xs)
    ensures Pending(Insert(xs, t)) && t.key in Keys(Insert(xs, t)) && Remaining(Insert(xs, t), t.key) == t.delta
  {
    InsertFits(xs, t);
    InsertUnique(xs, t);
    InsertKeepsRipe(xs, t);
    AbsoluteFacts(xs, 0, t.key);
    InsertIsSorted(xs, t, 0);
    InsertDeadline(Absolute(xs, 0), Due(t.delta, t.key), t.key);
  }

  lemma KeysParts(xs: seq<Task>, j: nat)
    requires j <= |xs|
    ensures forall k :: k in Keys(xs) <==> k in KeysOf(xs[..j]) || k in Keys(xs[j..])
  {
    forall k ensures k in Keys(xs) <==> k in KeysOf(xs[..j]) || k in Keys(xs[j..]) {
      if k in Keys(xs) {
        var i :| 0 <= i < |xs| && xs[i].key == k;
        if i < j { assert KeysOf(xs[..j])[i] == k; } else { assert xs[j..][i - j].key == k; }
      }
    }
  }

  lemma TickKeys(xs: seq<Task>)
    ensures |Tick(xs)| == |xs| && Keys(Tick(xs)) == Keys(xs)
  {
    assert forall i :: 0 <= i < |xs| ==> Tick(xs)[i].key == xs[i].key;
  }

  /** A pass fires some tasks and keeps the others. */
  lemma PassKeys(xs: seq<Task>)
    requires Pending(xs)
    ensures var (ys, f) := Pass(xs, Quiet);
      Pending(ys) && |ys| <= |xs| && forall k :: k in Keys(xs) <==> k in f || k in Keys(ys)
  {
    hide Pending, Ok, Pass, Tick, Ripe, KeysOf, Keys;
    QuietPass(xs);
    TickKeys(xs);
    KeysParts(Tick(xs), Ripe(Tick(xs)));
    SameKeys(xs, Ripe(Tick(xs)));
  }

  lemma SameKeys(xs: seq<Task>, j: nat)
    requires j <= |xs|
    ensures |Tick(xs)| == |xs| && KeysOf(Tick(xs)[..j]) == KeysOf(xs[..j])
  {
  }

  lemma {:induction false} RepeatedKeys(xs: seq<Task>, n: nat)
    requires Pending(xs)
    ensures var (ys, f) := Repeated(xs, n);
      Pending(ys) && |ys| <= |xs| && forall k :: k in Keys(xs) <==> k in f || k in Keys(ys)
    decreases n
  {
    hide Pending, Pass, Keys;
    PendingOk(xs);
    if n > 0 {
      PassKeys(xs);
      RepeatedKeys(Pass(xs, Quiet).0, n - 1);
    }
  }

  /** The whole insertion, from the head of the list. */
  ghost predicate Yields(m: Lists, c: Cell, plan: seq<Moment>, overtaken: bool)
    requires Addable(m, c)
  {
    var r := Run(m, NULL, c, plan);
    var (ys, f) := Repeated(TaskList(m.active), r.before);
    && Pending(ys) && Pending(Insert(ys, TaskOf(c)))
    && var (zs, g) := Repeated(if overtaken then ys else Insert(ys, TaskOf(c)), r.after);
       TaskList(r.lists.active) == zs && r.fired == f + g
  }

  lemma FirstTurn(m: Lists, c: Cell, plan: seq<Moment>)
    requires Addable(m, c) && !(plan != [] && plan[0] == TimerTick)
    ensures Yields(m, c, plan, Overtaken(m, NULL, c, plan))
  {
    hide TurnOn, Insert, Run, Overtaken, Repeated, Pending, Standing, Holds, Sound, Yields, Keys, Behind;
    var xs := TaskList(m.active);
    InsertPending(xs, TaskOf(c));
    StandingAtHead(m);
    RunTurn(m, NULL, c, plan);
    TurnFinished(m.active, 0, c);
    FinishedAtHead(xs, TaskOf(c));
    match TurnOn(m.active, 0, c) {
      case Placed(ds) => RepeatedNone(Insert(xs, TaskOf(c)));
      case Beyond(next, c') => WalkMeets(m, next, c', Rest(plan));
    }
    YieldsAtOnce(m, c, plan, Overtaken(m, NULL, c, plan));
  }

  lemma FinishedAtHead(xs: seq<Task>, t: Task)
    ensures Finished(xs, 0, t) == Insert(xs, t)
  {
    assert xs[0..] == xs;
  }

  lemma YieldsAtOnce(m: Lists, c: Cell, plan: seq<Moment>, overtaken: bool)
    requires Addable(m, c) && Pending(Insert(TaskList(m.active), TaskOf(c))) && Run(m, NULL, c, plan).before == 0
    requires var r, xs := Run(m, NULL, c, plan), TaskList(m.active);
      (TaskList(r.lists.active), r.fired) == Repeated(if overtaken then xs else Insert(xs, TaskOf(c)), r.after)
    ensures Yields(m, c, plan, overtaken)
  {
    hide Insert, Run, Pending, Keys, Pass;
    RepeatedNone(TaskList(m.active));
    var fired := Run(m, NULL, c, plan).fired;
    assert [] + fired == fired;
  }

  lemma StandingAtHead(m: Lists)
    requires Sound(m)
    ensures Standing(m, NULL)
  {
  }

  lemma RepeatedNone(xs: seq<Task>)
    requires Pending(xs)
    ensures Ok(xs) && Repeated(xs, 0) == (xs, [])
  {
  }

  lemma {:induction false} HeadMeets(m: Lists, c: Cell, plan: seq<Moment>)
    requires Addable(m, c)
    ensures Standing(m, NULL) && Yields(m, c, plan, Overtaken(m, NULL, c, plan))
    decreases |plan|
  {
    hide TurnOn, Insert, Run, Overtaken, Pending, Interrupted, Pass, FiresAt, KeysOf, Sound, Keys;
    StandingAtHead(m);
    if plan != [] && plan[0] == TimerTick {
      RunTick(m, NULL, c, plan);
      NoHeadFires(m);
      StillAddable(m, c);
      HeadMeets(Interrupted(m), c, plan[1..]);
    } else {
      FirstTurn(m, c, plan);
    }
  }

  lemma NoHeadFires(m: Lists)
    requires Sound(m)
    ensures !FiresAt(m, NULL)
  {
  }

  lemma StillAddable(m: Lists, c: Cell)
    requires Addable(m, c)
    ensures Addable(Interrupted(m), c) && Fired(m) <= |m.active|
    ensures Pass(TaskList(m.active), Quiet)
      == (TaskList(Interrupted(m).active), KeysOf(TaskList(m.active)[..Fired(m)]))
  {
    hide Pending, Pass, KeysOf, Interrupted, Sound, Keys;
    PassOnSlots(m);
    PassKeys(TaskList(m.active));
  }

  /**
   Passes before the first turn count as before the call and all others as after it.
   The interrupted insertion has exactly that effect iff no pass fires the task whose
   `next` field the walk points at.
   */
  lemma InterruptedInsertIff(m: Lists, c: Cell, plan: seq<Moment>)
    requires Addable(m, c)
    ensures Standing(m, NULL) && (Yields(m, c, plan, false) <==> !Overtaken(m, NULL, c, plan))
  {
    hide Run, Overtaken, Sound, Keys, Repeated, Insert, Pass;
    HeadMeets(m, c, plan);
    if Overtaken(m, NULL, c, plan) && Yields(m, c, plan, false) {
      NewKeyNowhere(m, c, plan);
      NewKeySomewhere(m, c, plan);
      assert false;
    }
  }

  lemma NewKeyNowhere(m: Lists, c: Cell, plan: seq<Moment>)
    requires Addable(m, c) && Yields(m, c, plan, true)
    ensures Standing(m, NULL)
    ensures var r := Run(m, NULL, c, plan);
      Pending(TaskList(r.lists.active)) && c.key !in Keys(TaskList(r.lists.active)) && c.key !in r.fired
  {
    hide Run, Pending, Sound, Keys, Repeated, Insert, Pass;
    StandingAtHead(m);
    var r, xs := Run(m, NULL, c, plan), TaskList(m.active);
    PendingOk(xs);
    RepeatedKeys(xs, r.before);
    PendingOk(Repeated(xs, r.before).0);
    RepeatedKeys(Repeated(xs, r.before).0, r.after);
  }

  lemma NewKeySomewhere(m: Lists, c: Cell, plan: seq<Moment>)
    requires Addable(m, c) && Yields(m, c, plan, false)
    ensures Standing(m, NULL)
    ensures var r := Run(m, NULL, c, plan);
      c.key in Keys(TaskList(r.lists.active)) || c.key in r.fired
  {
    hide Run, Pending, Sound, Keys, Repeated, Insert, Pass;
    StandingAtHead(m);
    var r, xs := Run(m, NULL, c, plan), TaskList(m.active);
    PendingOk(xs);
    RepeatedKeys(xs, r.before);
    PendingOk(Repeated(xs, r.before).0);
    var ys := Repeated(xs, r.before).0;
    InsertPending(ys, TaskOf(c));
    PendingOk(Insert(ys, TaskOf(c)));
    RepeatedKeys(Insert(ys, TaskOf(c)), r.after);
  }

  // ---------- when the added task fires ----------

  lemma {:induction false} RepeatedDeadline(xs: seq<Task>, n: nat, k: Key)
    requires Pending(xs) && k in Keys(xs)
    ensures var (ys, f) := Repeated(xs, n);
      Pending(ys) && (k !in f ==> k in Keys(ys) && Remaining(ys, k) == Remaining(xs, k) - n)
    decreases n
  {
    hide Pending, Pass, Keys, Remaining;
    PendingOk(xs);
    RepeatedKeys(xs, n);
    if n > 0 {
      PassOnTime(xs, Quiet, k);
      PassKeys(xs);
      DueSoon(xs, k);
      if k in Keys(Pass(xs, Quiet).0) {
        RepeatedDeadline(Pass(xs, Quiet).0, n - 1, k);
      }
    }
  }

  lemma DueSoon(xs: seq<Task>, k: Key)
    requires Pending(xs) && k in Keys(xs)
    ensures Remaining(xs, k) >= 1
  {
    FiresInItsPass(xs, [], k);
  }

  /** Nothing an insertion fires is new. */
  lemma {:induction false} FiredWasListed(m: Lists, at: nat, c: Cell, plan: seq<Moment>, k: Key)
    requires Standing(m, at) && Pending(TaskList(m.active)) && k !in Keys(TaskList(m.active))
    ensures k !in Run(m, at, c, plan).fired
    decreases |plan|, Ahead(m, at)
  {
    hide Pending, Sound, Keys, KeysOf;
    if plan != [] && plan[0] == TimerTick {
      InterruptedIs(m);
      PassOnSlots(m);
      PassKeys(TaskList(m.active));
      FiredWasListed(Interrupted(m), at, c, plan[1..], k);
    } else {
      TurnAdvances(m, at);
      var cs := if OnActive(m, at) then m.active else m.pool;
      match TurnOn(cs, Behind(cs, at), c) {
        case Placed(_) =>
        case Beyond(next, c') => FiredWasListed(m, next, c', Rest(plan), k);
      }
    }
  }

  /**
   A task of `t` ticks whose insertion saw `r.after` passes from its first turn on fires
   in pass `t - r.after` from then on, whatever else happens; if it was overtaken, never.
   */
  lemma InterruptedAddFiresIff(m: Lists, c: Cell, plan: seq<Moment>, es: seq<Event>)
    requires Addable(m, c) && AllCalm(es, c.key)
    ensures Standing(m, NULL)
    ensures var r := Run(m, NULL, c, plan);
      && Pending(TaskList(r.lists.active)) && c.key !in r.fired
      && (!Overtaken(m, NULL, c, plan) ==> r.after < c.delta)
      && FiringPass(TaskList(r.lists.active), es, c.key)
           == if !Overtaken(m, NULL, c, plan) && Passes(es) >= c.delta - r.after then c.delta - r.after else 0
  {
    hide Run, Overtaken, Pending, Sound, Keys, Repeated, Insert, Pass, Remaining, AllCalm;
    HeadMeets(m, c, plan);
    FiredWasListed(m, NULL, c, plan, c.key);
    var r, xs := Run(m, NULL, c, plan), TaskList(m.active);
    if Overtaken(m, NULL, c, plan) {
      NewKeyNowhere(m, c, plan);
      NeverFires(TaskList(r.lists.active), es, c.key);
    } else {
      NewKeySomewhere(m, c, plan);
      PendingOk(xs);
      RepeatedKeys(xs, r.before);
      var ys := Repeated(xs, r.before).0;
      InsertPending(ys, TaskOf(c));
      PendingOk(Insert(ys, TaskOf(c)));
      RepeatedDeadline(Insert(ys, TaskOf(c)), r.after, c.key);
      DueSoon(TaskList(r.lists.active), c.key);
      FiresInItsPass(TaskList(r.lists.active), es, c.key);
    }
  }

  /** One task with a tick to go is on the list; a tick after the first turn loses the new one. */
  lemma ATimerIsLost(a: Key, b: Key, t: nat, es: seq<Event>)
    requires a != b && 1 <= t <= INT_MAX && AllCalm(es, b)
    ensures var m, c := Lists([Cell(1, 1, a)], []), Cell(2, t, b);
      && Addable(m, c) && Standing(m, NULL)
      && var r := Run(m, NULL, c, [NextTurn, TimerTick]);
         r.lists.active == [] && r.fired == [a] && Ok([]) && FiringPass([], es, b) == 0
  {
    var m, c := Lists([Cell(1, 1, a)], []), Cell(2, t, b);
    assert TaskList(m.active) == [Task(1, a)];
    OneTask(a);
    OnlyTaskFires(a);
    assert Addable(m, c);
    LostAfterOneTurn(a, c);
    NeverFires([], es, b);
  }

  lemma OneTask(a: Key)
    ensures Pending([Task(1, a)]) && Keys([Task(1, a)]) == {a} && Pending([]) && Keys([]) == {}
  {
    var xs := [Task(1, a)];
    assert xs[1..] == [];
    KeysSplit(xs);
    assert Total(xs) == 1;
  }

  lemma LostAfterOneTurn(a: Key, c: Cell)
    requires c.slot == 2 && c.delta >= 1
    ensures var m := Lists([Cell(1, 1, a)], []);
      Standing(m, NULL) && var r := Run(m, NULL, c, [NextTurn, TimerTick]); r.lists.active == [] && r.fired == [a]
  {
    var m := Lists([Cell(1, 1, a)], []);
    var m1 := Lists([], [Cell(1, 0, a)]);
    var c' := c.(delta := c.delta - 1);
    assert m.active[0].slot == 1;
    OnlyTaskFires(a);
    StandingAtHead(m);
    RunTurn(m, NULL, c, [NextTurn, TimerTick]);
    assert TurnOn(m.active, 0, c) == Beyond(1, c');
    assert Rest([NextTurn, TimerTick]) == [TimerTick];
    RunTick(m, 1, c', [TimerTick]);
    assert [TimerTick][1..] == [];
    BehindIs(m1.pool, 0);
    assert Run(m1, 1, c', []) == Outcome(m1.(pool := m1.pool + [c']), [], 0, 0);
    hide Run;
  }

  lemma OnlyTaskFires(a: Key)
    ensures var m := Lists([Cell(1, 1, a)], []);
      && Interrupted(m) == Lists([], [Cell(1, 0, a)]) && Sound(m) && Fired(m) == 1
      && KeysOf(TaskList(m.active)[..Fired(m)]) == [a]
  {
    var cs := [Cell(1, 0, a)];
    assert Ticked([Cell(1, 1, a)]) == cs && cs[1..] == [] && cs + [] == cs;
    assert Drained(Lists([], cs)) == Lists([], cs);
    assert TaskList(cs)[0] == Task(0, a) && TaskList(cs)[1..] == [];
    assert Ripe(TaskList(cs)) == 1;
  }
}
