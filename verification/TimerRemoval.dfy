/**
 A timer interrupt inside timer_task_remove (timer.c:143-173), which also runs with
 interrupts on: one loop looks for the task, a second one for the pointer to it.
 */
module TimerRemoval {
  import opened Dll
  import opened TimerList
  import opened TimerRace

  /**
   The first loop is about to look at `slot`, NULL behind the last; the second looks
   for `target` with `tmp` at the `next` field of `at`, NULL for tt_head.
   */
  datatype Stage = Scanning(slot: nat) | Seeking(target: nat, at: nat)

  /** The list a slot is on. */
  function ListOf(m: Lists, at: nat): seq<Cell> {
    if OnActive(m, at) then m.active else m.pool
  }

  ghost predicate Known(m: Lists, slot: nat) {
    slot == NULL || Holds(m.active, slot) || Holds(m.pool, slot)
  }

  ghost predicate Steady(m: Lists, st: Stage) {
    && Sound(m)
    && (st.Scanning? ==> Known(m, st.slot))
    && (st.Seeking? ==> Known(m, st.target) && st.target != NULL && Known(m, st.at))
  }

  /** What the `next` field of `at` points at. */
  ghost function Link(m: Lists, at: nat): nat
    requires Known(m, at)
  {
    var cs := ListOf(m, at);
    var i := Behind(cs, at);
    if i < |cs| then cs[i].slot else NULL
  }

  function CutOut(cs: seq<Cell>, i: nat): seq<Cell>
    requires i < |cs|
  {
    cs[..i] + if i + 1 < |cs| then [cs[i + 1].(delta := cs[i + 1].delta + cs[i].delta)] + cs[i + 2..] else []
  }

  /** The slot behind `at` is unlinked and put in front of the pool. */
  ghost function Unlinked(m: Lists, at: nat): Lists
    requires Known(m, at) && Link(m, at) != NULL
  {
    var i := Behind(ListOf(m, at), at);
    if OnActive(m, at) then Lists(CutOut(m.active, i), [m.active[i]] + m.pool)
    else Lists(m.active, [m.pool[i]] + CutOut(m.pool, i))
  }

  /** The key in a slot that some list holds. */
  ghost function KeyIn(m: Lists, slot: nat): Key
    requires Known(m, slot) && slot != NULL
  {
    var cs := ListOf(m, slot);
    cs[Behind(cs, slot) - 1].key
  }

  datatype Removal = Removal(lists: Lists, fired: seq<Key>, passes: nat)

  ghost function Left(m: Lists, st: Stage): nat
    requires Steady(m, st)
  {
    match st
    case Scanning(slot) => if slot == NULL then 0 else Ahead(m, slot) + 1
    case Seeking(_, at) => Ahead(m, at)
  }

  /**
   timer_task_remove for key `k` from a stage on, with an interrupt wherever the plan
   has one before the next turn.
   */
  ghost function RunRemove(m: Lists, st: Stage, k: Key, plan: seq<Moment>): Removal
    requires Steady(m, st)
    decreases |plan|, if st.Scanning? then 1 else 0, Left(m, st)
  {
    if st == Scanning(NULL) then Removal(m, [], 0)
    else if plan != [] && plan[0] == TimerTick then
      StillSteady(m, st);
      var r := RunRemove(Interrupted(m), st, k, plan[1..]);
      r.(fired := KeysOf(TaskList(m.active)[..Fired(m)]) + r.fired, passes := r.passes + 1)
    else
      match st
      case Scanning(slot) =>
        LinkKnown(m, slot);
        RunRemove(m, if KeyIn(m, slot) == k then Seeking(slot, NULL) else Scanning(Link(m, slot)), k, Rest(plan))
      case Seeking(target, at) =>
        LinkKnown(m, at);
        if Link(m, at) == NULL then Removal(m, [], 0)
        else if Link(m, at) == target then Removal(Unlinked(m, at), [], 0)
        else RunRemove(m, Seeking(target, Link(m, at)), k, Rest(plan))
  }

  lemma StillSteady(m: Lists, st: Stage)
    requires Steady(m, st)
    ensures Fired(m) <= |m.active| && Steady(Interrupted(m), st)
  {
    InterruptedIs(m);
    hide Sound, Interrupted, Holds;
  }

  lemma LinkKnown(m: Lists, at: nat)
    requires Sound(m) && Known(m, at)
    ensures Known(m, Link(m, at))
    ensures Link(m, at) != NULL ==>
      Ahead(m, Link(m, at)) < Ahead(m, at) && OnActive(m, Link(m, at)) == OnActive(m, at)
  {
    TurnAdvances(m, at);
  }

  // ---------- the walk that loses its place ----------

  /** The walk is in the pool, or looks for a slot of the pool. */
  ghost predicate Astray(m: Lists, st: Stage) {
    if st.Scanning? then !OnActive(m, st.slot) else !OnActive(m, st.target) || !OnActive(m, st.at)
  }

  lemma RemoveTick(m: Lists, st: Stage, k: Key, plan: seq<Moment>)
    requires Steady(m, st) && st != Scanning(NULL) && plan != [] && plan[0] == TimerTick
    ensures Steady(Interrupted(m), st) && Fired(m) <= |m.active|
    ensures var r, s := RunRemove(m, st, k, plan), RunRemove(Interrupted(m), st, k, plan[1..]);
      && r.lists == s.lists && r.passes == s.passes + 1
      && r.fired == KeysOf(TaskList(m.active)[..Fired(m)]) + s.fired
  {
    StillSteady(m, st);
    hide Steady, Interrupted;
  }

  lemma AstrayAfterPass(m: Lists, st: Stage)
    requires Steady(m, st) && Astray(m, st)
    ensures Astray(Interrupted(m), st)
  {
    hide Sound, Holds, Interrupted;
    match st
    case Scanning(slot) => StillLost(m, slot);
    case Seeking(target, at) =>
      if !OnActive(m, target) { StillLost(m, target); }
      if !OnActive(m, at) { StillLost(m, at); }
  }

  /** A walk astray leaves the active list to the passes. */
  lemma {:induction false} AstrayRuns(m: Lists, st: Stage, k: Key, plan: seq<Moment>)
    requires Steady(m, st) && Astray(m, st) && Pending(TaskList(m.active))
    ensures var r := RunRemove(m, st, k, plan);
      (TaskList(r.lists.active), r.fired) == Repeated(TaskList(m.active), r.passes)
    decreases |plan|, if st.Scanning? then 1 else 0, Left(m, st)
  {
    hide Sound, Pending, Interrupted, Holds, Pass, KeysOf, Ok;
    if plan != [] && plan[0] == TimerTick {
      RemoveTick(m, st, k, plan);
      AstrayAfterPass(m, st);
      PassOnSlots(m);
      PendingOk(TaskList(m.active));
      AstrayRuns(Interrupted(m), st, k, plan[1..]);
    } else {
      RepeatedNone(TaskList(m.active));
      match st
      case Scanning(slot) =>
        LinkKnown(m, slot);
        if KeyIn(m, slot) == k {
          AstrayRuns(m, Seeking(slot, NULL), k, Rest(plan));
        } else if Link(m, slot) != NULL {
          AstrayRuns(m, Scanning(Link(m, slot)), k, Rest(plan));
        }
      case Seeking(target, at) =>
        LinkKnown(m, at);
        if Link(m, at) != NULL && Link(m, at) != target {
          AstrayRuns(m, Seeking(target, Link(m, at)), k, Rest(plan));
        }
    }
  }

  // ---------- the walk on course ----------

  ghost predicate Without(cs: seq<Cell>, n: int, k: Key) {
    forall j :: 0 <= j < n && j < |cs| ==> cs[j].key != k
  }

  /** What the two loops know while they walk the active list. */
  ghost predicate OnCourse(m: Lists, st: Stage, k: Key) {
    if st == Scanning(NULL) then Without(m.active, |m.active|, k)
    else if st.Scanning? then Holds(m.active, st.slot) && Without(m.active, Behind(m.active, st.slot) - 1, k)
    else
      && st.target != NULL && Holds(m.active, st.target) && OnActive(m, st.at)
      && Behind(m.active, st.at) < Behind(m.active, st.target)
      && m.active[Behind(m.active, st.target) - 1].key == k
      && Without(m.active, Behind(m.active, st.target) - 1, k)
  }

  /** Some pass during the call sends the walk into the pool, or takes away what it looks for. */
  ghost predicate Strays(m: Lists, st: Stage, k: Key, plan: seq<Moment>)
    requires Steady(m, st)
    decreases |plan|
  {
    if plan == [] || st == Scanning(NULL) then false
    else if plan[0] == TimerTick then
      StillSteady(m, st);
      Astray(Interrupted(m), st) || Strays(Interrupted(m), st, k, plan[1..])
    else if st.Scanning? then
      LinkKnown(m, st.slot);
      Strays(m, if KeyIn(m, st.slot) == k then Seeking(st.slot, NULL) else Scanning(Link(m, st.slot)), k, plan[1..])
    else
      LinkKnown(m, st.at);
      Link(m, st.at) != NULL && Link(m, st.at) != st.target
      && Strays(m, Seeking(st.target, Link(m, st.at)), k, plan[1..])
  }

  lemma {:induction false} CutOutRemoves(cs: seq<Cell>, i: nat, k: Key)
    requires i < |cs| && cs[i].key == k && Without(cs, i, k)
    ensures TaskList(CutOut(cs, i)) == Remove(TaskList(cs), k)
  {
    var xs := TaskList(cs);
    if i == 0 {
      assert |cs| > 1 ==> TaskList(CutOut(cs, 0))[1..] == xs[2..];
    } else {
      CutOutRemoves(cs[1..], i - 1, k);
      assert TaskList(cs[1..]) == xs[1..];
      assert CutOut(cs, i) == [cs[0]] + CutOut(cs[1..], i - 1);
    }
  }

  lemma {:induction false} NothingRemoved(xs: seq<Task>, k: Key)
    requires k !in Keys(xs)
    ensures Remove(xs, k) == xs
  {
    if xs != [] {
      KeysSplit(xs);
      NothingRemoved(xs[1..], k);
    }
  }

  lemma WithoutKeys(cs: seq<Cell>, k: Key)
    requires Without(cs, |cs|, k)
    ensures k !in Keys(TaskList(cs))
  {
  }

  lemma ActiveLink(m: Lists, at: nat)
    requires Sound(m) && OnActive(m, at)
    ensures var i := Behind(m.active, at);
      if i == |m.active| then Link(m, at) == NULL
      else
        && Link(m, at) == m.active[i].slot != NULL && Holds(m.active, Link(m, at))
        && Behind(m.active, Link(m, at)) == i + 1
  {
    TurnAdvances(m, at);
    SlotsNotNull(m);
  }

  lemma ScanOnCourse(m: Lists, slot: nat, k: Key)
    requires Sound(m) && OnCourse(m, Scanning(slot), k) && slot != NULL
    ensures Known(m, slot) && Known(m, Link(m, slot))
    ensures OnCourse(m, if KeyIn(m, slot) == k then Seeking(slot, NULL) else Scanning(Link(m, slot)), k)
  {
    ActiveLink(m, slot);
    hide Sound, Holds, Link;
  }

  lemma SeekOnCourse(m: Lists, target: nat, at: nat, k: Key)
    requires Sound(m) && OnCourse(m, Seeking(target, at), k)
    ensures Known(m, at) && Link(m, at) != NULL
    ensures Link(m, at) == target ==> TaskList(Unlinked(m, at).active) == Remove(TaskList(m.active), k)
    ensures Link(m, at) != target ==> OnCourse(m, Seeking(target, Link(m, at)), k)
  {
    hide Sound, Holds, CutOut, Without, TaskList;
    ActiveLink(m, at);
    if Link(m, at) == target {
      CutOutRemoves(m.active, Behind(m.active, at), k);
    }
  }

  lemma StaysPlaced(m: Lists, slot: nat)
    requires Sound(m) && slot != NULL && Holds(m.active, slot) && OnActive(Interrupted(m), slot)
    ensures Sound(Interrupted(m)) && Holds(Interrupted(m).active, slot)
    ensures Fired(m) < Behind(m.active, slot) <= |m.active|
    ensures Behind(Interrupted(m).active, slot) == Behind(m.active, slot) - Fired(m)
  {
    PlaceAfterPass(m, slot);
    hide Sound, Fired, Interrupted;
  }

  /** Keys keep their order in a pass. */
  lemma KeysAfterPass(m: Lists, n: nat, k: Key)
    requires Sound(m) && Fired(m) <= n <= |m.active|
    ensures Without(m.active, n, k) ==> Without(Interrupted(m).active, n - Fired(m), k)
    ensures n < |m.active| ==>
      n - Fired(m) < |Interrupted(m).active| && Interrupted(m).active[n - Fired(m)].key == m.active[n].key
  {
    hide Sound, Fired, Ticked, Interrupted;
    InterruptedIs(m);
    TickedAt(m.active);
  }

  lemma CourseAfterPass(m: Lists, st: Stage, k: Key)
    requires Steady(m, st) && OnCourse(m, st, k) && st != Scanning(NULL) && !Astray(Interrupted(m), st)
    ensures OnCourse(Interrupted(m), st, k)
  {
    hide Sound, Holds, Interrupted, Fired, Without;
    var slot := if st.Scanning? then st.slot else st.target;
    StaysPlaced(m, slot);
    KeysAfterPass(m, Behind(m.active, slot) - 1, k);
    if st.Seeking? && st.at != NULL { StaysPlaced(m, st.at); }
  }

  /** What the whole call comes to. */
  lemma {:induction false} RemovalRuns(m: Lists, st: Stage, k: Key, plan: seq<Moment>)
    requires Steady(m, st) && OnCourse(m, st, k) && Pending(TaskList(m.active))
    ensures var r := RunRemove(m, st, k, plan);
      var (ys, f) := Repeated(TaskList(m.active), r.passes);
      && Pending(ys) && r.fired == f
      && TaskList(r.lists.active) == if Strays(m, st, k, plan) then ys else Remove(ys, k)
    decreases |plan|, if st.Scanning? then 1 else 0, Left(m, st)
  {
    hide Sound, Pending, Interrupted, Holds, Pass, KeysOf, Ok, OnCourse, Astray, Link, Remove, Unlinked;
    PendingOk(TaskList(m.active));
    if st == Scanning(NULL) {
      ScanEnds(m, k);
      RepeatedNone(TaskList(m.active));
    } else if plan != [] && plan[0] == TimerTick {
      RemoveTick(m, st, k, plan);
      PassOnSlots(m);
      if Astray(Interrupted(m), st) {
        AstrayRuns(Interrupted(m), st, k, plan[1..]);
        RepeatedKeys(TaskList(Interrupted(m).active), RunRemove(Interrupted(m), st, k, plan[1..]).passes);
      } else {
        CourseAfterPass(m, st, k);
        RemovalRuns(Interrupted(m), st, k, plan[1..]);
      }
    } else {
      RepeatedNone(TaskList(m.active));
      match st
      case Scanning(slot) =>
        LinkKnown(m, slot);
        ScanOnCourse(m, slot, k);
        RemovalRuns(m, if KeyIn(m, slot) == k then Seeking(slot, NULL) else Scanning(Link(m, slot)), k, Rest(plan));
      case Seeking(target, at) =>
        LinkKnown(m, at);
        SeekOnCourse(m, target, at, k);
        if Link(m, at) != target {
          RemovalRuns(m, Seeking(target, Link(m, at)), k, Rest(plan));
        }
    }
  }

  lemma ScanEnds(m: Lists, k: Key)
    requires OnCourse(m, Scanning(NULL), k)
    ensures Remove(TaskList(m.active), k) == TaskList(m.active)
  {
    WithoutKeys(m.active, k);
    NothingRemoved(TaskList(m.active), k);
  }

  function FirstSlot(m: Lists): nat {
    if m.active == [] then NULL else m.active[0].slot
  }

  lemma Begins(m: Lists, k: Key)
    requires Sound(m)
    ensures Steady(m, Scanning(FirstSlot(m))) && OnCourse(m, Scanning(FirstSlot(m)), k)
  {
    if m.active != [] {
      SlotsNotNull(m);
      BehindIs(m.active, 0);
    }
  }

  /**
   With `ys` the list after the passes that fell into the call, the removal yields
   `ys` without the task iff no pass sent the walk astray or the task is not on `ys`
   any more; otherwise the task stays.
   */
  lemma InterruptedRemovalIff(m: Lists, k: Key, plan: seq<Moment>)
    requires Sound(m) && Pending(TaskList(m.active))
    ensures var st := Scanning(FirstSlot(m));
      && Steady(m, st)
      && var r := RunRemove(m, st, k, plan);
         var (ys, f) := Repeated(TaskList(m.active), r.passes);
         && r.fired == f
         && TaskList(r.lists.active) == (if Strays(m, st, k, plan) then ys else Remove(ys, k))
         && (TaskList(r.lists.active) == Remove(ys, k) <==> !Strays(m, st, k, plan) || k !in Keys(ys))
         && (k in Keys(TaskList(r.lists.active)) <==> Strays(m, st, k, plan) && k in Keys(ys))
  {
    hide Sound, Pending, OnCourse, RunRemove, Strays, Keys, Remove, Repeated, Steady;
    PendingOk(TaskList(m.active));
    Begins(m, k);
    var st := Scanning(FirstSlot(m));
    RemovalRuns(m, st, k, plan);
    var ys := Repeated(TaskList(m.active), RunRemove(m, st, k, plan).passes).0;
    UniqueOf(ys);
    RemoveUnique(ys, k);
    if k !in Keys(ys) { NothingRemoved(ys, k); }
  }

  lemma UniqueOf(xs: seq<Task>)
    requires Pending(xs)
    ensures Unique(xs)
  {
  }

  /**
   `a` has one tick to go and is looked at first; a tick before that leaves `b` on the
   list that should be removed.
   */
  lemma ARemovalIsLost(a: Key, b: Key, t: nat)
    requires a != b && 1 <= t < INT_MAX
    ensures var m := Lists([Cell(1, 1, a), Cell(2, t, b)], []);
      && Sound(m) && Pending(TaskList(m.active)) && Steady(m, Scanning(1))
      && var r := RunRemove(m, Scanning(1), b, [TimerTick]);
         r.lists.active == [Cell(2, t, b)] && r.fired == [a]
  {
    var m, m1 := Lists([Cell(1, 1, a), Cell(2, t, b)], []), Lists([Cell(2, t, b)], [Cell(1, 0, a)]);
    TwoTasks(a, b, t);
    Begins(m, b);
    assert FirstSlot(m) == 1;
    RemoveTick(m, Scanning(1), b, [TimerTick]);
    assert [TimerTick][1..] == [];
    BehindIs(m1.pool, 0);
    LinkKnown(m1, 1);
    assert RunRemove(m1, Scanning(1), b, []) == Removal(m1, [], 0);
    hide RunRemove;
  }

  lemma TwoTasks(a: Key, b: Key, t: nat)
    requires a != b && 1 <= t < INT_MAX
    ensures var m := Lists([Cell(1, 1, a), Cell(2, t, b)], []);
      && Sound(m) && Pending(TaskList(m.active)) && Fired(m) == 1
      && Interrupted(m) == Lists([Cell(2, t, b)], [Cell(1, 0, a)])
      && KeysOf(TaskList(m.active)[..1]) == [a]
  {
    var m := Lists([Cell(1, 1, a), Cell(2, t, b)], []);
    var xs := TaskList(m.active);
    var cs := [Cell(1, 0, a), Cell(2, t, b)];
    assert xs[1..] == [Task(t, b)] && xs[1..][1..] == [];
    KeysSplit(xs);
    KeysSplit(xs[1..]);
    assert Total(xs[1..]) == t && Keys([]) == {};
    assert Ticked(m.active) == cs && cs[1..] == [Cell(2, t, b)];
    assert TaskList(cs)[1..] == [Task(t, b)];
    assert Drained(Lists([Cell(2, t, b)], [Cell(1, 0, a)])) == Lists([Cell(2, t, b)], [Cell(1, 0, a)]);
    assert [cs[0]] + [] == [cs[0]];
    assert Ripe(TaskList(cs)) == 1;
    assert Drained(Lists(cs, [])) == Drained(Lists([Cell(2, t, b)], [Cell(1, 0, a)]));
  }
}
