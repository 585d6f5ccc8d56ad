/**
 The timer queue as the kernel keeps it: 64 pool entries, an active list and a
 free list threaded through them (kernel/src/interrupt/timer.c), and the table
 of bottom halves that drives it (kernel/src/interrupt/irq.c:45-71).
 */
module Timer {
  import opened Dll
  import opened TimerList
  import R = TimerRace

  const POOL: nat := 64

  /** `next` links the distinct slots `xs` from `head` on, the last to NULL. */
  ghost predicate Chain(head: nat, next: seq<nat>, xs: seq<nat>) {
    && |next| == POOL && head == At(xs, 0)
    && (forall i :: 0 <= i < |xs| ==> 0 < xs[i] < POOL)
    && (forall i, j :: 0 <= i < j < |xs| ==> xs[i] != xs[j])
    && (forall i {:trigger next[xs[i]]} :: 0 <= i < |xs| ==> next[xs[i]] == At(xs, i + 1))
  }

  lemma NothingChained(next: seq<nat>)
    requires |next| == POOL
    ensures Chain(NULL, next, []) && Apart([], [])
  {
  }

  /** What a walk along a chain may rely on. */
  lemma Walk(head: nat, next: seq<nat>, xs: seq<nat>)
    requires Chain(head, next, xs)
    ensures |next| == POOL && head == At(xs, 0)
    ensures forall i :: 0 <= i < |xs| ==> 0 < xs[i] < POOL
    ensures forall i {:trigger next[xs[i]]} :: 0 <= i < |xs| ==> next[xs[i]] == At(xs, i + 1)
  {
  }

  ghost predicate Apart(xs: seq<nat>, ys: seq<nat>) {
    forall a :: a in xs ==> a !in ys
  }

  ghost function Tasks(expiresAt: seq<int>, keyOf: seq<Key>, xs: seq<nat>): (ts: seq<Task>)
    requires |expiresAt| == |keyOf| == POOL && forall i :: 0 <= i < |xs| ==> xs[i] < POOL
    ensures |ts| == |xs| && forall i :: 0 <= i < |xs| ==> ts[i] == Task(expiresAt[xs[i]], keyOf[xs[i]])
  {
    seq(|xs|, i requires 0 <= i < |xs| => Task(expiresAt[xs[i]], keyOf[xs[i]]))
  }

  /** The slots `xs` with their fields. */
  ghost function Cells(expiresAt: seq<int>, keyOf: seq<Key>, xs: seq<nat>): (cs: seq<R.Cell>)
    requires |expiresAt| == |keyOf| == POOL && forall i :: 0 <= i < |xs| ==> xs[i] < POOL
    ensures |cs| == |xs|
    ensures forall i :: 0 <= i < |xs| ==> cs[i] == R.Cell(xs[i], expiresAt[xs[i]], keyOf[xs[i]])
  {
    seq(|xs|, i requires 0 <= i < |xs| => R.Cell(xs[i], expiresAt[xs[i]], keyOf[xs[i]]))
  }

  ghost predicate IsQuiet(cb: Callbacks) {
    forall k :: cb(k) == []
  }

  // ---------- splicing chains ----------

  function With(xs: seq<nat>, i: nat, b: nat): seq<nat>
    requires i <= |xs|
  {
    xs[..i] + [b] + xs[i..]
  }

  /** Linking a fresh slot in behind position i - 1. */
  lemma LinkIn(head: nat, next: seq<nat>, xs: seq<nat>, i: nat, b: nat)
    requires Chain(head, next, xs) && i <= |xs| && 0 < b < POOL && b !in xs
    ensures var next' := next[b := At(xs, i)];
      if i == 0 then Chain(b, next', With(xs, i, b)) else Chain(head, next'[xs[i - 1] := b], With(xs, i, b))
  {
  }

  /** Unlinking position i. */
  lemma LinkOut(head: nat, next: seq<nat>, xs: seq<nat>, i: nat)
    requires Chain(head, next, xs) && i < |xs|
    ensures if i == 0 then Chain(next[xs[0]], next, Without(xs, 0))
      else Chain(head, next[xs[i - 1] := next[xs[i]]], Without(xs, i))
    ensures xs[i] !in Without(xs, i)
  {
  }

  /** The two writes that link slot `b` in leave the other chain alone. */
  lemma LinkInApart(head: nat, next: seq<nat>, xs: seq<nat>, other: nat, ys: seq<nat>, i: nat, b: nat)
    requires Chain(head, next, xs) && Chain(other, next, ys) && Apart(xs, ys) && i <= |xs| && 0 < b < POOL
      && b !in xs && b !in ys
    ensures var next' := next[b := At(xs, i)];
      var next'' := if i == 0 then next' else next'[xs[i - 1] := b];
      Chain(if i == 0 then b else head, next'', With(xs, i, b)) && Chain(other, next'', ys) && Apart(With(xs, i, b), ys)
  {
    LinkIn(head, next, xs, i, b);
    LinkElsewhere(other, next, ys, b, At(xs, i));
    if i > 0 {
      assert xs[i - 1] in xs;
      LinkElsewhere(other, next[b := At(xs, i)], ys, xs[i - 1], b);
    }
  }

  /** The write that unlinks position i leaves the other chain alone. */
  lemma LinkOutApart(head: nat, next: seq<nat>, xs: seq<nat>, other: nat, ys: seq<nat>, i: nat)
    requires Chain(head, next, xs) && Chain(other, next, ys) && Apart(xs, ys) && i < |xs|
    ensures var next' := if i == 0 then next else next[xs[i - 1] := next[xs[i]]];
      && Chain(if i == 0 then next[xs[0]] else head, next', Without(xs, i)) && Chain(other, next', ys)
      && Apart(Without(xs, i), ys) && xs[i] !in Without(xs, i) && xs[i] !in ys
  {
    LinkOut(head, next, xs, i);
    assert xs[i] in xs && (forall a :: a in Without(xs, i) ==> a in xs);
    if i > 0 {
      assert xs[i - 1] in xs;
      LinkElsewhere(other, next, ys, xs[i - 1], next[xs[i]]);
    }
  }

  /** Writing the `next` field of a slot outside a chain. */
  lemma LinkElsewhere(head: nat, next: seq<nat>, xs: seq<nat>, b: nat, v: nat)
    requires Chain(head, next, xs) && b !in xs && b < POOL
    ensures Chain(head, next[b := v], xs)
  {
  }

  // ---------- the loops, seen from the lists ----------

  function Inherit(ticks: int, xs: seq<Task>): seq<Task> {
    if xs == [] then [] else [xs[0].(delta := xs[0].delta + ticks)] + xs[1..]
  }

  lemma {:induction false} RemoveAt(xs: seq<Task>, k: Key, i: nat)
    requires i < |xs| && xs[i].key == k && forall j :: 0 <= j < i ==> xs[j].key != k
    ensures Remove(xs, k) == xs[..i] + Inherit(xs[i].delta, xs[i + 1..])
  {
    hide Inherit;
    var rest := xs[1..];
    if i == 0 {
      RemoveFirst(xs, k);
    } else {
      assert rest[i - 1] == xs[i] && rest[i..] == xs[i + 1..];
      assert forall j :: 0 <= j < i - 1 ==> rest[j] == xs[j + 1];
      RemoveAt(rest, k, i - 1);
      FrontFirst(xs, i, Inherit(xs[i].delta, xs[i + 1..]));
    }
  }

  lemma RemoveFirst(xs: seq<Task>, k: Key)
    requires xs != [] && xs[0].key == k
    ensures Remove(xs, k) == xs[..0] + Inherit(xs[0].delta, xs[1..])
  {
    var rest := xs[1..];
    assert |xs| > 1 ==> rest[1..] == xs[2..];
    assert xs[..0] + Inherit(xs[0].delta, rest) == Inherit(xs[0].delta, rest);
  }

  lemma FrontFirst(xs: seq<Task>, i: nat, tail: seq<Task>)
    requires 0 < i <= |xs|
    ensures xs[..i] + tail == [xs[0]] + (xs[1..][..i - 1] + tail)
  {
    assert xs[..i] == [xs[0]] + xs[1..][..i - 1];
  }

  lemma {:induction false} RemoveAbsent(xs: seq<Task>, k: Key)
    requires forall j :: 0 <= j < |xs| ==> xs[j].key != k
    ensures Remove(xs, k) == xs
  {
    if xs != [] { RemoveAbsent(xs[1..], k); }
  }

  /** The insertion of `t` has passed position i, where `rest` remains to be placed. */
  ghost predicate Passed(xs: seq<Task>, t: Task, i: nat, rest: Task)
    requires i <= |xs|
  {
    Insert(xs, t) == xs[..i] + Insert(xs[i..], rest)
  }

  lemma PassNone(xs: seq<Task>, t: Task)
    ensures Passed(xs, t, 0, t)
  {
    assert xs[0..] == xs;
  }

  lemma PassOne(xs: seq<Task>, t: Task, i: nat, rest: Task)
    requires i < |xs| && Passed(xs, t, i, rest) && xs[i].delta <= rest.delta
    ensures Passed(xs, t, i + 1, rest.(delta := rest.delta - xs[i].delta))
  {
    assert xs[i..][1..] == xs[i + 1..];
    assert xs[..i + 1] == xs[..i] + [xs[i]];
  }

  /** Different slots below the size of the pool. */
  ghost predicate Slots(xs: seq<nat>) {
    NoDup(xs) && forall i :: 0 <= i < |xs| ==> 0 < xs[i] < POOL
  }

  lemma ChainSlots(head: nat, next: seq<nat>, xs: seq<nat>)
    requires Chain(head, next, xs)
    ensures Slots(xs)
  {
  }

  lemma TasksOf(expires: seq<int>, keys: seq<Key>, xs: seq<nat>, ys: seq<nat>)
    requires |expires| == |keys| == POOL && Slots(xs) && Slots(ys) && Slots(xs + ys)
    ensures Tasks(expires, keys, xs + ys) == Tasks(expires, keys, xs) + Tasks(expires, keys, ys)
  {
  }

  lemma TasksCons(expires: seq<int>, keys: seq<Key>, x: nat, xs: seq<nat>)
    requires |expires| == |keys| == POOL && Slots([x] + xs) && Slots(xs)
    ensures x < POOL && Tasks(expires, keys, [x] + xs) == [Task(expires[x], keys[x])] + Tasks(expires, keys, xs)
  {
    assert ([x] + xs)[0] == x;
  }

  lemma TasksSlice(expires: seq<int>, keys: seq<Key>, xs: seq<nat>, i: nat)
    requires |expires| == |keys| == POOL && Slots(xs) && i <= |xs|
    ensures Tasks(expires, keys, xs)[..i] == Tasks(expires, keys, xs[..i])
    ensures Tasks(expires, keys, xs)[i..] == Tasks(expires, keys, xs[i..])
  {
  }

  /** A slot outside the list may hold any ticks. */
  lemma TasksElsewhere(expires: seq<int>, keys: seq<Key>, xs: seq<nat>, b: nat, v: int)
    requires |expires| == |keys| == POOL && Slots(xs) && b !in xs && b < POOL
    ensures Tasks(expires[b := v], keys, xs) == Tasks(expires, keys, xs)
  {
  }

  lemma FirstTask(expires: seq<int>, keys: seq<Key>, xs: seq<nat>, v: int)
    requires |expires| == |keys| == POOL && Slots(xs) && xs != []
    ensures var ts := Tasks(expires, keys, xs);
      Tasks(expires[xs[0] := v], keys, xs) == [Task(v, keys[xs[0]])] + ts[1..]
  {
  }

  /** What a tick of the head's slot does to its list. */
  lemma TasksTick(expires: seq<int>, keys: seq<Key>, xs: seq<nat>)
    requires |expires| == |keys| == POOL && Slots(xs)
    ensures var ts := Tasks(expires, keys, xs);
      if xs != [] && expires[xs[0]] > 0 then Tasks(expires[xs[0] := expires[xs[0]] - 1], keys, xs) == Tick(ts)
      else Tick(ts) == ts
  {
    hide NoDup;
    if xs != [] { FirstTask(expires, keys, xs, expires[xs[0]] - 1); }
  }

  lemma CellsTick(expires: seq<int>, keys: seq<Key>, xs: seq<nat>)
    requires |expires| == |keys| == POOL && Slots(xs)
    ensures var cs := Cells(expires, keys, xs);
      if xs != [] && expires[xs[0]] > 0 then Cells(expires[xs[0] := expires[xs[0]] - 1], keys, xs) == R.Ticked(cs)
      else R.Ticked(cs) == cs
  {
    hide NoDup;
    if xs != [] { FirstCell(expires, keys, xs, expires[xs[0]] - 1); }
  }

  lemma ApartBoth(xs: seq<nat>, ys: seq<nat>)
    requires Apart(xs, ys)
    ensures Apart(ys, xs)
  {
  }

  lemma NotIn(xs: seq<nat>, i: nat, ys: seq<nat>)
    requires Apart(xs, ys) && i < |xs|
    ensures xs[i] !in ys
  {
    assert xs[i] in xs;
  }

  lemma HoldsIn(expires: seq<int>, keys: seq<Key>, xs: seq<nat>, at: nat)
    requires |expires| == |keys| == POOL && Slots(xs)
    ensures R.Holds(Cells(expires, keys, xs), at) <==> at in xs
  {
    if at in xs {
      var i :| 0 <= i < |xs| && xs[i] == at;
      assert Cells(expires, keys, xs)[i].slot == at;
    }
  }

  /** Which list `at` is on, and where. */
  lemma Located(expires: seq<int>, keys: seq<Key>, active: seq<nat>, pool: seq<nat>, at: nat)
    requires |expires| == |keys| == POOL && Slots(active) && Slots(pool)
    requires at == NULL || at in active || at in pool
    ensures var m := R.Lists(Cells(expires, keys, active), Cells(expires, keys, pool));
      var xs := if at == NULL || at in active then active else pool;
      && R.OnActive(m, at) == (at == NULL || at in active) && (R.OnActive(m, at) || R.Holds(m.pool, at))
      && (at == NULL || R.Holds(Cells(expires, keys, xs), at))
      && var i := R.Behind(Cells(expires, keys, xs), at);
         i <= |xs| && if at == NULL then i == 0 else i > 0 && xs[i - 1] == at
  {
    HoldsIn(expires, keys, active, at);
    HoldsIn(expires, keys, pool, at);
  }

  /** What the `next` field of `at` holds. */
  lemma Follows(head: nat, next: seq<nat>, xs: seq<nat>, at: nat, i: nat)
    requires Chain(head, next, xs) && i <= |xs| && (if at == NULL then i == 0 else i > 0 && xs[i - 1] == at)
    ensures |next| == POOL && at < POOL && At(xs, i) == (if at == NULL then head else next[at])
    ensures i < |xs| ==> At(xs, i) == xs[i] && 0 < xs[i] < POOL
    ensures i == |xs| ==> At(xs, i) == NULL
  {
  }

  /** A turn on slots: either `tt` goes in at position i, or its ticks shrink. */
  lemma CellsTurned(expires: seq<int>, keys: seq<Key>, xs: seq<nat>, i: nat, tt: nat)
    requires |expires| == |keys| == POOL && Slots(xs) && i <= |xs| && 0 < tt < POOL && tt !in xs
    ensures Slots(With(xs, i, tt))
    ensures var r := R.TurnOn(Cells(expires, keys, xs), i, R.Cell(tt, expires[tt], keys[tt]));
      if i < |xs| && expires[xs[i]] <= expires[tt] then
        r == R.Beyond(xs[i], R.Cell(tt, expires[tt] - expires[xs[i]], keys[tt]))
      else
        var expires' := if i < |xs| then expires[xs[i] := expires[xs[i]] - expires[tt]] else expires;
        r == R.Placed(Cells(expires', keys, With(xs, i, tt)))
  {
    SlotsWith(xs, i, tt);
    if !(i < |xs| && expires[xs[i]] <= expires[tt]) {
      var expires' := if i < |xs| then expires[xs[i] := expires[xs[i]] - expires[tt]] else expires;
      var r := R.TurnOn(Cells(expires, keys, xs), i, R.Cell(tt, expires[tt], keys[tt]));
      var ds, ys := Cells(expires', keys, With(xs, i, tt)), With(xs, i, tt);
      assert |ys| == |xs| + 1;
      forall j | 0 <= j < |ds| ensures ds[j] == r.cells[j] {
        assert ys[j] == if j < i then xs[j] else if j == i then tt else xs[j - 1];
      }
    }
  }

  /** `m1` and the `left` ticks of `c` are what the turn `R.TurnOn` on the list that `at` is on makes of `m`. */
  ghost predicate InsertTurned(m: R.Lists, at: nat, c: R.Cell, m1: R.Lists, left: int, placed: bool, on: nat) {
    && (R.OnActive(m, at) || R.Holds(m.pool, at))
    && var cs := if R.OnActive(m, at) then m.active else m.pool;
       var r := R.TurnOn(cs, R.Behind(cs, at), c);
       if r.Placed? then placed && m1 == if R.OnActive(m, at) then m.(active := r.cells) else m.(pool := r.cells)
       else !placed && m1 == m && on == r.at && c.(delta := left) == r.cell
  }

  lemma PlacedThere(m: R.Lists, at: nat, c: R.Cell, ds: seq<R.Cell>, left: int, on: nat)
    requires R.OnActive(m, at) || R.Holds(m.pool, at)
    requires var cs := if R.OnActive(m, at) then m.active else m.pool;
      R.TurnOn(cs, R.Behind(cs, at), c) == R.Placed(ds)
    ensures var m1 := if R.OnActive(m, at) then m.(active := ds) else m.(pool := ds);
      InsertTurned(m, at, c, m1, left, true, on)
  {
  }

  lemma PassedThere(m: R.Lists, at: nat, c: R.Cell, left: int, on: nat)
    requires R.OnActive(m, at) || R.Holds(m.pool, at)
    requires var cs := if R.OnActive(m, at) then m.active else m.pool;
      R.TurnOn(cs, R.Behind(cs, at), c) == R.Beyond(on, c.(delta := left))
    ensures InsertTurned(m, at, c, m, left, false, on)
  {
  }

  /** Only entries of the slots `xs` differ. */
  ghost predicate Kept<T>(now: seq<T>, before: seq<T>, xs: seq<nat>) {
    |now| == |before| == POOL && forall b :: 0 <= b < POOL && b !in xs ==> now[b] == before[b]
  }

  /** Slots went from the active list to the pool, and only their `next` fields changed. */
  ghost predicate OnlyMoved(active: seq<nat>, pool: seq<nat>, next: seq<nat>,
                            wasActive: seq<nat>, wasPool: seq<nat>, wasNext: seq<nat>) {
    && Kept(next, wasNext, wasActive)
    && (forall b :: b in active ==> b in wasActive)
    && (forall b :: b in pool ==> b in wasActive || b in wasPool)
  }

  lemma NothingMoved(active: seq<nat>, pool: seq<nat>, next: seq<nat>)
    requires |next| == POOL
    ensures OnlyMoved(active, pool, next, active, pool, next)
  {
  }

  lemma FirstOnlyMoved(active: seq<nat>, pool: seq<nat>, next: seq<nat>, wasNext: seq<nat>)
    requires active != [] && Kept(next, wasNext, active)
    ensures OnlyMoved(active[1..], [active[0]] + pool, next, active, pool, wasNext)
  {
  }

  lemma MovedTwice(a0: seq<nat>, p0: seq<nat>, n0: seq<nat>, a1: seq<nat>, p1: seq<nat>, n1: seq<nat>,
                   a2: seq<nat>, p2: seq<nat>, n2: seq<nat>)
    ensures OnlyMoved(a1, p1, n1, a0, p0, n0) && OnlyMoved(a2, p2, n2, a1, p1, n1)
      ==> OnlyMoved(a2, p2, n2, a0, p0, n0)
  {
  }

  lemma KeptAt<T>(now: seq<T>, before: seq<T>, xs: seq<nat>, b: nat)
    requires Kept(now, before, xs) && b < POOL && b !in xs
    ensures |now| == |before| == POOL && now[b] == before[b]
  {
  }

  lemma Regrouped(xs: seq<Key>, ys: seq<Key>, zs: seq<Key>)
    ensures xs + (ys + zs) == (xs + ys) + zs
  {
  }

  lemma KeptBut<T>(before: seq<T>, xs: seq<nat>, v: T)
    requires |before| == POOL && xs != [] && xs[0] < POOL
    ensures Kept(before[xs[0] := v], before, xs)
  {
    assert xs[0] in xs;
  }

  /** The run of an insertion, over a turn that its slots have taken. */
  lemma RunTurned(m: R.Lists, at: nat, c: R.Cell, plan: seq<R.Moment>, m1: R.Lists, left: int, placed: bool, on: nat)
    requires R.Standing(m, at) && !(plan != [] && plan[0] == R.TimerTick)
    requires InsertTurned(m, at, c, m1, left, placed, on)
    ensures var r := R.Run(m, at, c, plan);
      if placed then r == R.Outcome(m1, [], 0, 0)
      else
        && m1 == m && R.Standing(m, on) && R.Ahead(m, on) < R.Ahead(m, at)
        && r == R.Run(m, on, c.(delta := left), R.Rest(plan))
  {
    R.TurnAdvances(m, at);
    hide R.Sound, R.Holds, R.Behind;
  }

  lemma TaskListOf(expires: seq<int>, keys: seq<Key>, xs: seq<nat>)
    requires |expires| == |keys| == POOL && Slots(xs)
    ensures R.TaskList(Cells(expires, keys, xs)) == Tasks(expires, keys, xs)
  {
  }

  lemma SoundOf(head: nat, next: seq<nat>, active: seq<nat>, poolHead: nat, pool: seq<nat>,
                expires: seq<int>, keys: seq<Key>)
    requires |expires| == |keys| == POOL
    requires Chain(head, next, active) && Chain(poolHead, next, pool) && Apart(active, pool)
    ensures R.Sound(R.Lists(Cells(expires, keys, active), Cells(expires, keys, pool)))
    ensures R.TaskList(Cells(expires, keys, active)) == Tasks(expires, keys, active)
  {
    ChainSlots(head, next, active);
    ChainSlots(poolHead, next, pool);
    HoldsIn(expires, keys, active, NULL);
    HoldsIn(expires, keys, pool, NULL);
    CellsApart(expires, keys, active, pool);
    TaskListOf(expires, keys, active);
    hide Chain, Apart, R.Holds;
  }

  lemma CellsApart(expires: seq<int>, keys: seq<Key>, xs: seq<nat>, ys: seq<nat>)
    requires |expires| == |keys| == POOL && Slots(xs) && Slots(ys) && Apart(xs, ys)
    ensures R.Apart(Cells(expires, keys, xs), Cells(expires, keys, ys))
    ensures R.Distinct(Cells(expires, keys, xs)) && R.Distinct(Cells(expires, keys, ys))
  {
    forall i, j | 0 <= i < |xs| && 0 <= j < |ys| ensures xs[i] != ys[j] {
      assert xs[i] in xs && ys[j] in ys;
    }
  }

  lemma SlotsOf(head: nat, next: seq<nat>, xs: seq<nat>, other: nat, ys: seq<nat>)
    requires Chain(head, next, xs) && Chain(other, next, ys)
    ensures Slots(xs) && Slots(ys)
  {
  }

  /** The head of one list goes to the front of the other. */
  lemma FirstMoved(expires: seq<int>, keys: seq<Key>, xs: seq<nat>, ys: seq<nat>)
    requires |expires| == |keys| == POOL && Slots(xs) && Slots(ys) && xs != []
    ensures xs[1..] == Without(xs, 0) && Slots(xs[1..]) && forall i :: 0 <= i < |ys| + 1 ==> ([xs[0]] + ys)[i] < POOL
    ensures Tasks(expires, keys, xs)[0].key == keys[xs[0]]
    ensures Tasks(expires, keys, xs[1..]) == Tasks(expires, keys, xs)[1..]
    ensures Cells(expires, keys, xs[1..]) == Cells(expires, keys, xs)[1..]
    ensures Cells(expires, keys, [xs[0]] + ys) == [Cells(expires, keys, xs)[0]] + Cells(expires, keys, ys)
  {
  }

  lemma FirstCell(expires: seq<int>, keys: seq<Key>, xs: seq<nat>, v: int)
    requires |expires| == |keys| == POOL && Slots(xs) && xs != []
    ensures var cs := Cells(expires, keys, xs);
      Cells(expires[xs[0] := v], keys, xs) == [cs[0].(delta := v)] + cs[1..]
  {
  }

  /** A slot outside the list may hold any ticks. */
  lemma CellsElsewhere(expires: seq<int>, keys: seq<Key>, xs: seq<nat>, b: nat, v: int)
    requires |expires| == |keys| == POOL && Slots(xs) && b !in xs && b < POOL
    ensures Cells(expires[b := v], keys, xs) == Cells(expires, keys, xs)
  {
  }

  lemma SlotsParts(xs: seq<nat>, i: nat)
    requires Slots(xs) && i <= |xs|
    ensures Slots(xs[..i]) && Slots(xs[i..]) && xs[..i] + xs[i..] == xs
    ensures forall a :: a in xs[i..] ==> a in xs && a !in xs[..i]
    ensures forall a :: a in xs[..i] ==> a in xs
  {
  }

  lemma SlotsWithout(xs: seq<nat>, i: nat)
    requires Slots(xs) && i < |xs|
    ensures Slots(Without(xs, i)) && xs[i] !in xs[i + 1..]
  {
  }

  lemma SlotsWith(xs: seq<nat>, i: nat, b: nat)
    requires Slots(xs) && i <= |xs| && 0 < b < POOL && b !in xs
    ensures Slots([b] + xs[i..]) && Slots(With(xs, i, b)) && xs[..i] + ([b] + xs[i..]) == With(xs, i, b)
  {
  }

  /** The slots with a new one spliced in show the list with its task inserted. */
  lemma PlacedHere(expires: seq<int>, keys: seq<Key>, slots: seq<nat>, i: nat, tt: nat, t: Task, ticks: int,
                   expires': seq<int>)
    requires |expires| == |keys| == |expires'| == POOL && 0 < tt < POOL && tt !in slots && i <= |slots| && Slots(slots)
    requires var xs, rest := Tasks(expires, keys, slots), Task(ticks, keys[tt]);
      Passed(xs, t, i, rest) && (i < |slots| ==> xs[i].delta > ticks)
    requires expires' == (if i < |slots| then expires[tt := ticks][slots[i] := expires[slots[i]] - ticks]
      else expires[tt := ticks])
    ensures Slots(With(slots, i, tt))
    ensures Tasks(expires', keys, With(slots, i, tt)) == Insert(Tasks(expires, keys, slots), t)
  {
    hide NoDup, Insert, With;
    var xs := Tasks(expires, keys, slots);
    BackSettled(expires, keys, slots, i, tt, ticks, expires');
    TasksSlice(expires, keys, slots, i);
    Spliced(xs[i..], Task(ticks, keys[tt]), Tasks(expires', keys, slots[i..]));
    WithShown(expires, keys, slots, i, tt, ticks, expires');
  }

  lemma WithShown(expires: seq<int>, keys: seq<Key>, slots: seq<nat>, i: nat, tt: nat, ticks: int, expires': seq<int>)
    requires |expires| == |keys| == |expires'| == POOL && 0 < tt < POOL && tt !in slots && i <= |slots| && Slots(slots)
    requires expires' == (if i < |slots| then expires[tt := ticks][slots[i] := expires[slots[i]] - ticks]
      else expires[tt := ticks])
    ensures Slots(With(slots, i, tt)) && Slots(slots[i..])
    ensures Tasks(expires', keys, With(slots, i, tt))
      == Tasks(expires, keys, slots)[..i] + ([Task(ticks, keys[tt])] + Tasks(expires', keys, slots[i..]))
  {
    hide NoDup;
    SlotsParts(slots, i);
    SlotsWith(slots, i, tt);
    TasksSlice(expires, keys, slots, i);
    TasksOf(expires', keys, slots[..i], [tt] + slots[i..]);
    FrontSettled(expires, keys, slots, i, tt, ticks, expires');
    TasksCons(expires', keys, tt, slots[i..]);
  }

  lemma FrontSettled(expires: seq<int>, keys: seq<Key>, slots: seq<nat>, i: nat, tt: nat, ticks: int,
                     expires': seq<int>)
    requires |expires| == |keys| == |expires'| == POOL && 0 < tt < POOL && tt !in slots && i <= |slots| && Slots(slots)
    requires expires' == (if i < |slots| then expires[tt := ticks][slots[i] := expires[slots[i]] - ticks]
      else expires[tt := ticks])
    ensures Slots(slots[..i]) && Tasks(expires', keys, slots[..i]) == Tasks(expires, keys, slots[..i])
      && expires'[tt] == ticks
  {
  }

  lemma BackSettled(expires: seq<int>, keys: seq<Key>, slots: seq<nat>, i: nat, tt: nat, ticks: int, expires': seq<int>)
    requires |expires| == |keys| == |expires'| == POOL && 0 < tt < POOL && tt !in slots && i <= |slots| && Slots(slots)
    requires expires' == (if i < |slots| then expires[tt := ticks][slots[i] := expires[slots[i]] - ticks]
      else expires[tt := ticks])
    ensures Slots(slots[i..])
    ensures i < |slots| ==> var ts := Tasks(expires, keys, slots[i..]);
      Tasks(expires', keys, slots[i..]) == [ts[0].(delta := ts[0].delta - ticks)] + ts[1..]
  {
    var back := slots[i..];
    if back != [] {
      assert back[0] == slots[i];
      TasksElsewhere(expires, keys, back, tt, ticks);
      FirstTask(expires[tt := ticks], keys, back, expires[slots[i]] - ticks);
    }
  }

  /** A task that is due before the first of `xs` goes in front and takes its ticks off that one. */
  lemma Spliced(xs: seq<Task>, t: Task, ys: seq<Task>)
    requires xs == [] ==> ys == []
    requires xs != [] ==> xs[0].delta > t.delta && ys == [xs[0].(delta := xs[0].delta - t.delta)] + xs[1..]
    ensures Insert(xs, t) == [t] + ys
  {
  }

  /** The slots without one of them show the list with its successor inheriting its ticks. */
  lemma TakenOut(expires: seq<int>, keys: seq<Key>, slots: seq<nat>, i: nat, expires': seq<int>)
    requires |expires| == |keys| == |expires'| == POOL && i < |slots| && Slots(slots)
    requires expires' == if i + 1 < |slots| then expires[slots[i + 1] := expires[slots[i + 1]] + expires[slots[i]]]
      else expires
    ensures Slots(Without(slots, i))
    ensures var xs := Tasks(expires, keys, slots);
      Tasks(expires', keys, Without(slots, i)) == xs[..i] + Inherit(xs[i].delta, xs[i + 1..])
  {
    hide NoDup, Inherit;
    var xs := Tasks(expires, keys, slots);
    var front, back := slots[..i], slots[i + 1..];
    SlotsParts(slots, i);
    SlotsParts(slots, i + 1);
    SlotsWithout(slots, i);
    TasksSlice(expires, keys, slots, i);
    TasksSlice(expires, keys, slots, i + 1);
    TasksOf(expires', keys, front, back);
    FrontKept(expires, keys, slots, i, expires');
    BackInherits(expires, keys, slots, i, expires');
  }

  lemma FrontKept(expires: seq<int>, keys: seq<Key>, slots: seq<nat>, i: nat, expires': seq<int>)
    requires |expires| == |keys| == |expires'| == POOL && i < |slots| && Slots(slots)
    requires expires' == if i + 1 < |slots| then expires[slots[i + 1] := expires[slots[i + 1]] + expires[slots[i]]]
      else expires
    ensures Slots(slots[..i]) && Tasks(expires', keys, slots[..i]) == Tasks(expires, keys, slots[..i])
  {
  }

  lemma BackInherits(expires: seq<int>, keys: seq<Key>, slots: seq<nat>, i: nat, expires': seq<int>)
    requires |expires| == |keys| == |expires'| == POOL && i < |slots| && Slots(slots)
    requires expires' == if i + 1 < |slots| then expires[slots[i + 1] := expires[slots[i + 1]] + expires[slots[i]]]
      else expires
    ensures Slots(slots[i + 1..])
    ensures Tasks(expires', keys, slots[i + 1..]) == Inherit(expires[slots[i]], Tasks(expires, keys, slots[i + 1..]))
  {
    hide NoDup, Inherit;
    SlotsParts(slots, i + 1);
    InheritIs(expires[slots[i]], Tasks(expires, keys, slots[i + 1..]));
    if i + 1 < |slots| { FirstInherits(expires, keys, slots[i + 1..], expires[slots[i]]); }
  }

  lemma FirstInherits(expires: seq<int>, keys: seq<Key>, xs: seq<nat>, ticks: int)
    requires |expires| == |keys| == POOL && Slots(xs) && xs != []
    ensures var ts := Tasks(expires, keys, xs);
      Tasks(expires[xs[0] := expires[xs[0]] + ticks], keys, xs) == [Task(ts[0].delta + ticks, ts[0].key)] + ts[1..]
  {
    FirstTask(expires, keys, xs, expires[xs[0]] + ticks);
  }

  lemma InheritIs(ticks: int, xs: seq<Task>)
    ensures xs == [] ==> Inherit(ticks, xs) == []
    ensures xs != [] ==> Inherit(ticks, xs) == [Task(xs[0].delta + ticks, xs[0].key)] + xs[1..]
  {
  }

  lemma SamePlace(head: nat, next: seq<nat>, xs: seq<nat>, i: nat, j: nat)
    requires Chain(head, next, xs) && i < |xs| && j < |xs| && xs[i] == xs[j]
    ensures i == j
  {
  }

  /** One turn of the drain loop. */
  lemma DrainStep(xs: seq<Task>, cb: Callbacks, fired: seq<Key>)
    requires Ok(xs) && Polite(cb) && xs != [] && xs[0].delta == 0
    ensures var k := xs[0].key; var ys := ServeAll(xs[1..], cb(k));
      && Ok(xs[1..]) && AllSensible(cb(k)) && Ok(ys) && Ripe(ys) < Ripe(xs)
      && Drain(xs, cb).0 == Drain(ys, cb).0
      && fired + Drain(xs, cb).1 == (fired + [k]) + Drain(ys, cb).1
  {
    TailOk(xs);
    ServeAllOk(xs[1..], cb(xs[0].key));
  }

  lemma DrainDone(xs: seq<Task>, cb: Callbacks)
    requires Ok(xs) && Polite(cb)
    ensures xs == [] || xs[0].delta != 0 ==> Drain(xs, cb) == (xs, [])
  {
  }

  lemma DrainedDone(m: R.Lists)
    ensures m.active == [] || m.active[0].delta != 0 ==> R.Drained(m) == m
  {
  }

  lemma DrainedStep(m: R.Lists)
    requires m.active != [] && m.active[0].delta == 0
    ensures R.Drained(m) == R.Drained(R.Lists(m.active[1..], [m.active[0]] + m.pool))
  {
  }

  // ---------- the table of bottom halves ----------

  /** Where the two entries of timer.c:22-23 lie. */
  function Address(b: BottomHalf): nat {
    match b
    case TimerBh => 1
    case TtBh => 2
  }

  function HalfAt(a: nat): BottomHalf {
    if a == 1 then TimerBh else TtBh
  }

  function Pointer(table: seq<BottomHalf>, i: nat): nat {
    if i < |table| then Address(table[i]) else NULL
  }

  /** `head` and `next` link up `table`; an entry not registered yet has no successor. */
  ghost predicate TableLinked(head: nat, next: Links, table: seq<BottomHalf>) {
    && head == Pointer(table, 0)
    && (forall b: BottomHalf :: Address(b) in next && (b !in table ==> next[Address(b)] == NULL))
    && (forall i {:trigger table[i]} :: 0 <= i < |table| ==> next[Address(table[i])] == Pointer(table, i + 1))
    && (forall i, j :: 0 <= i < j < |table| ==> table[i] != table[j])
  }

  lemma EmptyTable(next: Links)
    requires forall b: BottomHalf :: Address(b) in next && next[Address(b)] == NULL
    ensures TableLinked(NULL, next, [])
  {
  }

  lemma TableWalk(head: nat, next: Links, table: seq<BottomHalf>)
    requires TableLinked(head, next, table)
    ensures head == Pointer(table, 0)
    ensures forall i {:trigger table[i]} :: 0 <= i < |table| ==>
      Address(table[i]) in next && next[Address(table[i])] == Pointer(table, i + 1)
        && HalfAt(Address(table[i])) == table[i]
  {
  }

  /** The one write that links `b` in behind the last entry. */
  lemma TableGrows(head: nat, next: Links, table: seq<BottomHalf>, b: BottomHalf)
    requires TableLinked(head, next, table) && b !in table
    ensures table == [] ==> TableLinked(Address(b), next, [b])
    ensures table != [] ==> TableLinked(head, next[Address(table[|table| - 1]) := Address(b)], table + [b])
  {
  }

  class TimerQueue {
    var expiresAt: seq<int>
    var keyOf: seq<Key>
    var next: seq<nat>
    var poolHead: nat
    var head: nat
    var bhHead: nat
    var bhNext: Links
    var bhFlagged: set<BottomHalf>

    ghost var active: seq<nat>
    ghost var pool: seq<nat>
    ghost var bhTable: seq<BottomHalf>

    ghost predicate Shape()
      reads this
    {
      && |expiresAt| == |keyOf| == POOL
      && Chain(head, next, active) && Chain(poolHead, next, pool) && Apart(active, pool)
    }

    ghost function List(): seq<Task>
      requires Shape()
      reads this
    {
      Tasks(expiresAt, keyOf, active)
    }

    /** The active list and the pool with all their fields. */
    ghost function Both(): R.Lists
      requires Shape()
      reads this
    {
      R.Lists(Cells(expiresAt, keyOf, active), Cells(expiresAt, keyOf, pool))
    }

    /** A slot that is taken out of the pool and on no list yet. */
    ghost predicate Loose(tt: nat)
      reads this
    {
      Shape() && 0 < tt < POOL && tt !in active && tt !in pool && next[tt] == NULL
    }

    /** Active and pooled slots split slots 1 to 63. */
    ghost predicate Valid()
      reads this
    {
      Shape() && |active| + |pool| == SLOTS
    }

    /** The table of bottom halves, linked in order of registration. */
    ghost predicate TableOk()
      reads this
    {
      TableLinked(bhHead, bhNext, bhTable)
    }

    /** timer_init: every slot but slot 0 is pooled. */
    constructor ()
      ensures Valid() && List() == [] && TableOk() && bhTable == [TimerBh, TtBh] && bhFlagged == {}
      ensures |pool| == 63 && forall b :: b in pool ==> 1 <= b <= 63
    {
      hide TableLinked, Chain, Apart;
      bhHead, bhNext, bhTable, bhFlagged := NULL, map[1 := NULL, 2 := NULL], [], {};
      expiresAt := seq(POOL, _ => 0);
      keyOf := seq(POOL, _ => Key(0, 0));
      next := seq(POOL, _ => NULL);
      poolHead, head := NULL, NULL;
      active, pool := [], [];
      new;
      EmptyTable(bhNext);
      NothingChained(next);
      Register(TimerBh);
      Register(TtBh);
      var n := POOL - 1;
      while n > 0
        modifies this`next, this`poolHead, this`pool
        invariant 0 <= n < POOL && Shape() && active == [] && |pool| == SLOTS - n
        invariant forall a :: a in pool ==> n < a < POOL
      {
        TaskFree(n);
        n := n - 1;
      }
      head := NULL;
    }

    method TaskFree(tt: nat)
      requires Shape() && 0 < tt < POOL && tt !in active && tt !in pool
      modifies this`next, this`poolHead, this`pool
      ensures Shape() && pool == [tt] + old(pool) && next == old(next)[tt := old(poolHead)]
    {
      LinkIn(poolHead, next, pool, 0, tt);
      LinkElsewhere(head, next, active, tt, poolHead);
      next := next[tt := poolHead];
      poolHead := tt;
      pool := With(pool, 0, tt);
    }

    method TaskGetFree() returns (tt: nat)
      requires Shape()
      modifies this`next, this`poolHead, this`pool
      ensures Shape()
      ensures old(pool) == [] ==> tt == NULL && pool == [] && next == old(next)
      ensures old(pool) != [] ==>
        0 < tt < POOL && [tt] + pool == old(pool) && tt !in active && tt !in pool && next[tt] == NULL
    {
      tt := NULL;
      if poolHead != NULL {
        LinkOut(poolHead, next, pool, 0);
        tt := poolHead;
        poolHead := next[tt];
        pool := Without(pool, 0);
        LinkElsewhere(head, next, active, tt, NULL);
        LinkElsewhere(poolHead, next, pool, tt, NULL);
        next := next[tt := NULL];
      }
    }

    /**
     The loop of timer.c:81-94: finds where `tt` belongs, settling the ticks on the
     way. `prev` is the slot whose `next` field `tmp` points at, NULL for the head.
     */
    method SeekPlace(tt: nat) returns (prev: nat, ghost i: nat)
      requires Shape() && 0 < tt < POOL && tt !in active && next[tt] == NULL
      modifies this`expiresAt, this`next
      ensures i <= |active| && prev == At(active, i - 1) && next == old(next)[tt := At(active, i)]
      ensures |expiresAt| == POOL && Tasks(expiresAt, keyOf, With(active, i, tt))
        == Insert(old(List()), Task(old(expiresAt)[tt], keyOf[tt]))
    {
      hide Insert, Passed, Apart;
      ghost var xs, t := List(), Task(expiresAt[tt], keyOf[tt]);
      PassNone(xs, t);
      i := 0;
      prev := NULL;
      var cur := head;
      while cur != NULL
        invariant 0 <= i <= |active| && cur == At(active, i) && prev == At(active, i - 1)
        invariant next == old(next) && |expiresAt| == POOL && expiresAt == old(expiresAt)[tt := expiresAt[tt]]
        invariant Passed(xs, t, i, Task(expiresAt[tt], keyOf[tt]))
        decreases |active| - i
      {
        if expiresAt[cur] > expiresAt[tt] {
          expiresAt := expiresAt[cur := expiresAt[cur] - expiresAt[tt]];
          next := next[tt := cur];
          break;
        }
        PassOne(xs, t, i, Task(expiresAt[tt], keyOf[tt]));
        expiresAt := expiresAt[tt := expiresAt[tt] - expiresAt[cur]];
        prev, cur := cur, next[cur];
        i := i + 1;
      }
      PlacedHere(old(expiresAt), keyOf, active, i, tt, t, expiresAt[tt], expiresAt);
    }

    /** The writes that link `tt` in before `cur`, at position i of the list that `at` is on. */
    method LinkAt(tt: nat, at: nat, cur: nat, ghost onActive: bool, ghost i: nat)
      requires Shape() && 0 < tt < POOL && tt !in active && tt !in pool && next[tt] == NULL
      requires var xs := if onActive then active else pool;
        i <= |xs| && cur == At(xs, i) && (if at == NULL then onActive && i == 0 else i > 0 && xs[i - 1] == at)
      modifies this`expiresAt, this`next, this`head, this`active, this`pool
      ensures Shape()
      ensures active == (if onActive then With(old(active), i, tt) else old(active))
      ensures pool == (if onActive then old(pool) else With(old(pool), i, tt))
      ensures expiresAt == old(if cur != NULL then expiresAt[cur := expiresAt[cur] - expiresAt[tt]] else expiresAt)
    {
      hide Chain, Apart, With;
      Follows(if onActive then head else poolHead, next, if onActive then active else pool, at, i);
      ApartBoth(active, pool);
      if onActive {
        LinkInApart(head, next, active, poolHead, pool, i, tt);
      } else {
        LinkInApart(poolHead, next, pool, head, active, i, tt);
        ApartBoth(With(pool, i, tt), active);
      }
      if cur != NULL {
        expiresAt := expiresAt[cur := expiresAt[cur] - expiresAt[tt]];
        next := next[tt := cur];
      } else {
        assert next[tt := NULL] == next;
      }
      if at == NULL {
        head := tt;
      } else {
        next := next[at := tt];
      }
      if onActive {
        active := With(active, i, tt);
      } else {
        pool := With(pool, i, tt);
      }
    }

    /**
     One turn of the loop of timer.c:81-94, wherever `tmp` points: at the `next` field
     of `at`, which an interrupt may have moved to the pool, or at tt_head for NULL.
     `on` is the slot it points into afterwards, unless `tt` is linked in.
     */
    method InsertTurn(tt: nat, at: nat) returns (placed: bool, on: nat)
      requires Shape() && 0 < tt < POOL && tt !in active && tt !in pool && next[tt] == NULL
      requires at == NULL || at in active || at in pool
      modifies this`expiresAt, this`next, this`head, this`active, this`pool
      ensures Shape()
      ensures InsertTurned(old(Both()), at, R.Cell(tt, old(expiresAt)[tt], keyOf[tt]),
                           Both(), expiresAt[tt], placed, on)
      ensures !placed ==> active == old(active) && pool == old(pool) && next == old(next)
      ensures !placed ==> on in active || on in pool
    {
      hide Chain, Apart, Cells, R.TurnOn, R.Holds, R.OnActive, R.Behind, With, InsertTurned, Slots;
      ghost var m, c := Both(), R.Cell(tt, expiresAt[tt], keyOf[tt]);
      SlotsOf(head, next, active, poolHead, pool);
      Located(expiresAt, keyOf, active, pool, at);
      ghost var onActive := at == NULL || at in active;
      ghost var xs, ys := if onActive then active else pool, if onActive then pool else active;
      ghost var i := R.Behind(Cells(expiresAt, keyOf, xs), at);
      CellsTurned(expiresAt, keyOf, xs, i, tt);
      Follows(if onActive then head else poolHead, next, xs, at, i);
      var cur := if at == NULL then head else next[at];
      if cur != NULL && expiresAt[cur] <= expiresAt[tt] {
        CellsElsewhere(expiresAt, keyOf, active, tt, expiresAt[tt] - expiresAt[cur]);
        CellsElsewhere(expiresAt, keyOf, pool, tt, expiresAt[tt] - expiresAt[cur]);
        PassedThere(m, at, c, expiresAt[tt] - expiresAt[cur], cur);
        expiresAt := expiresAt[tt := expiresAt[tt] - expiresAt[cur]];
        return false, cur;
      }
      if cur != NULL {
        ApartBoth(active, pool);
        NotIn(xs, i, ys);
        CellsElsewhere(expiresAt, keyOf, ys, cur, expiresAt[cur] - expiresAt[tt]);
      }
      LinkAt(tt, at, cur, onActive, i);
      PlacedThere(m, at, c, Cells(expiresAt, keyOf, With(xs, i, tt)), expiresAt[tt], NULL);
      placed, on := true, NULL;
    }

    /** timer.c:76-97. */
    method TaskInsert(tt: nat)
      requires Shape() && 0 < tt < POOL && tt !in active && tt !in pool && next[tt] == NULL
      modifies this`expiresAt, this`next, this`head, this`active
      ensures Shape() && |active| == |old(active)| + 1
      ensures List() == Insert(old(List()), Task(old(expiresAt)[tt], keyOf[tt]))
    {
      hide Insert, Apart, Chain;
      Walk(head, next, active);
      ghost var i;
      var prev;
      prev, i := SeekPlace(tt);
      LinkInApart(head, old(next), active, poolHead, pool, i, tt);
      if prev == NULL {
        head := tt;
      } else {
        next := next[prev := tt];
      }
      active := With(active, i, tt);
    }

    /** The writes that take `cur` off the active list; its successor inherits its ticks. */
    method Detach(prev: nat, cur: nat, ghost i: nat)
      requires Shape() && i < |active| && cur == active[i] && prev == At(active, i - 1)
      modifies this`expiresAt, this`next, this`head, this`active
      ensures Shape() && active == Without(old(active), i) && cur !in active && cur !in pool && 0 < cur < POOL
      ensures List() == old(List())[..i] + Inherit(old(List())[i].delta, old(List())[i + 1..])
    {
      hide Apart, Inherit, Chain;
      Walk(head, next, active);
      LinkOutApart(head, next, active, poolHead, pool, i);
      ghost var expires := expiresAt;
      var succ := next[cur];
      if prev == NULL {
        head := succ;
      } else {
        next := next[prev := succ];
      }
      if succ != NULL {
        expiresAt := expiresAt[succ := expiresAt[succ] + expiresAt[cur]];
      }
      TakenOut(expires, keyOf, active, i, expiresAt) by { ChainSlots(old(head), old(next), active); }
      active := Without(active, i);
    }

    /** timer.c:150-166: unlinks the active slot `tt` and returns it to the pool. */
    method Unlink(tt: nat, ghost i: nat)
      requires Shape() && i < |active| && tt == active[i]
      modifies this`expiresAt, this`next, this`head, this`poolHead, this`active, this`pool
      ensures Shape() && active == Without(old(active), i) && pool == [tt] + old(pool)
      ensures List() == old(List())[..i] + Inherit(old(List())[i].delta, old(List())[i + 1..])
    {
      hide Apart, Inherit, Chain;
      Walk(head, next, active);
      var prev, cur := NULL, head;
      ghost var j := 0;
      while cur != tt
        invariant j <= i && cur == At(active, j) && prev == At(active, j - 1)
        decreases i - j
      {
        prev, cur := cur, next[cur];
        j := j + 1;
      }
      SamePlace(head, next, active, i, j);
      Detach(prev, cur, i);
      TaskFree(tt);
    }

    method TaskRemove(k: Key)
      requires Valid()
      modifies this`expiresAt, this`next, this`head, this`poolHead, this`active, this`pool
      ensures Valid() && List() == Remove(old(List()), k)
    {
      hide Apart, Inherit, Remove;
      var tt := head;
      ghost var i := 0;
      while tt != NULL
        invariant 0 <= i <= |active| && tt == At(active, i)
        invariant forall j :: 0 <= j < i ==> List()[j].key != k
        decreases |active| - i
      {
        if keyOf[tt] == k {
          RemoveAt(List(), k, i);
          Unlink(tt, i);
          return;
        }
        tt := next[tt];
        i := i + 1;
      }
      RemoveAbsent(List(), k);
    }

    method TaskAdd(k: Key, ticks: nat)
      requires Valid() && ticks < 0x1_0000_0000
      modifies this`expiresAt, this`keyOf, this`next, this`head, this`poolHead, this`active, this`pool
      ensures Valid() && List() == Add(old(List()), k, ticks)
    {
      hide Insert, Remove, Apart;
      TaskRemove(k);
      var tt := TaskGetFree();
      if tt == NULL {
        return;
      }
      expiresAt, keyOf := expiresAt[tt := ToInt(ticks)], keyOf[tt := k];
      assert List() == Remove(old(List()), k);
      TaskInsert(tt);
    }

    /** timer.c:36-49; `wakes` is whether tt_bh becomes active. */
    method IrqBh() returns (wakes: bool)
      requires Shape()
      modifies this`expiresAt
      ensures Shape() && List() == Tick(old(List())) && wakes == Wakes(old(List()))
      ensures Both() == R.Lists(R.Ticked(old(Both().active)), old(Both().pool))
      ensures Kept(expiresAt, old(expiresAt), active)
    {
      hide Chain, Apart, R.Ticked, Tick;
      Walk(head, next, active);
      wakes := false;
      ChainSlots(head, next, active);
      ChainSlots(poolHead, next, pool);
      TasksTick(expiresAt, keyOf, active);
      CellsTick(expiresAt, keyOf, active);
      if head != NULL {
        KeptBut(expiresAt, active, expiresAt[head] - 1);
        NotIn(active, 0, pool);
        CellsElsewhere(expiresAt, keyOf, pool, head, expiresAt[head] - 1);
      }
      if head != NULL {
        if expiresAt[head] > 0 {
          expiresAt := expiresAt[head := expiresAt[head] - 1];
          wakes := expiresAt[head] == 0;
        } else {
          wakes := true;
        }
      }
    }

    /** The requests one callback makes, in order. */
    method ServeRequests(rs: seq<Request>)
      requires Shape() && (Valid() || rs == []) && Ok(List()) && AllSensible(rs)
      modifies this`expiresAt, this`keyOf, this`next, this`head, this`poolHead, this`active, this`pool
      ensures Shape() && (old(Valid()) ==> Valid()) && Ok(List()) && List() == ServeAll(old(List()), rs)
      ensures rs == [] ==> expiresAt == old(expiresAt) && keyOf == old(keyOf) && next == old(next)
      ensures rs == [] ==> active == old(active) && pool == old(pool)
    {
      hide Apart, Chain, Ok, Add, Remove;
      var i := 0;
      ghost var all := ServeAll(List(), rs);
      while i < |rs|
        invariant 0 <= i <= |rs| && Shape() && (old(Valid()) ==> Valid()) && Ok(List())
        invariant ServeAll(List(), rs[i..]) == all
        invariant rs == [] ==> expiresAt == old(expiresAt) && keyOf == old(keyOf) && next == old(next)
        invariant rs == [] ==> active == old(active) && pool == old(pool)
      {
        ServeOk(List(), rs[i]);
        assert rs[i..][1..] == rs[i + 1..];
        match rs[i] {
          case AddRequest(k, ticks) => TaskAdd(k, ticks);
          case RemoveRequest(k) => TaskRemove(k);
        }
        i := i + 1;
      }
    }

    /** timer.c:113-118: the head goes back to the pool. */
    method FreeFirst() returns (k: Key)
      requires Shape() && active != []
      modifies this`next, this`head, this`poolHead, this`active, this`pool
      ensures Shape() && active == old(active)[1..] && pool == [old(active)[0]] + old(pool)
      ensures k == old(List())[0].key && Kept(next, old(next), old(active))
    {
      hide Apart, Chain;
      Walk(head, next, active);
      var tt := head;
      k := keyOf[tt];
      LinkOutApart(head, next, active, poolHead, pool, 0);
      KeptBut(next, active, poolHead);
      head := next[head];
      active := Without(active, 0);
      TaskFree(tt);
    }

    /** One turn of the loop of timer.c:105-122. */
    method FireFirst(cb: Callbacks) returns (k: Key)
      requires Shape() && (Valid() || IsQuiet(cb)) && Ok(List()) && Polite(cb) && active != [] && List()[0].delta == 0
      modifies this`expiresAt, this`keyOf, this`next, this`head, this`poolHead, this`active, this`pool
      ensures Shape() && (old(Valid()) ==> Valid()) && k == old(List())[0].key
      ensures Ok(List()) && List() == ServeAll(old(List())[1..], cb(k))
      ensures IsQuiet(cb) ==> OnlyMoved(active, pool, next, old(active), old(pool), old(next))
      ensures IsQuiet(cb) ==> expiresAt == old(expiresAt) && keyOf == old(keyOf)
      ensures IsQuiet(cb) ==> Both() == R.Lists(old(Both()).active[1..], [old(Both()).active[0]] + old(Both()).pool)
    {
      hide Ok, Apart, Chain, Drain, ServeAll, Tasks, Cells;
      DrainStep(List(), cb, []);
      SlotsOf(head, next, active, poolHead, pool);
      FirstMoved(expiresAt, keyOf, active, pool);
      k := FreeFirst();
      FirstOnlyMoved(old(active), old(pool), next, old(next));
      ServeRequests(cb(k));
    }

    /** timer.c:99-123; with a task outside both lists, as while one is inserted, the callbacks make no requests. */
    method TaskBh(cb: Callbacks) returns (fired: seq<Key>)
      requires Shape() && (Valid() || IsQuiet(cb)) && Ok(List()) && Polite(cb)
      modifies this`expiresAt, this`keyOf, this`next, this`head, this`poolHead, this`active, this`pool
      ensures Shape() && (old(Valid()) ==> Valid()) && Ok(List()) && (List(), fired) == Drain(old(List()), cb)
      ensures IsQuiet(cb) ==> OnlyMoved(active, pool, next, old(active), old(pool), old(next))
      ensures IsQuiet(cb) ==> expiresAt == old(expiresAt) && keyOf == old(keyOf)
      ensures IsQuiet(cb) ==> Both() == R.Drained(old(Both()))
    {
      hide Ok, Apart, Chain, Drain, ServeAll, R.Drained, Tasks, Cells, OnlyMoved, IsQuiet;
      Walk(head, next, active);
      NothingMoved(active, pool, next);
      ghost var result, both := Drain(List(), cb), R.Drained(Both());
      fired := [];
      assert [] + result.1 == result.1;
      while head != NULL
        invariant Shape() && (old(Valid()) ==> Valid()) && Ok(List())
        invariant result == (Drain(List(), cb).0, fired + Drain(List(), cb).1)
        invariant IsQuiet(cb) ==> OnlyMoved(active, pool, next, old(active), old(pool), old(next))
        invariant IsQuiet(cb) ==> expiresAt == old(expiresAt) && keyOf == old(keyOf) && both == R.Drained(Both())
        decreases Ripe(List())
      {
        Walk(head, next, active);
        if expiresAt[head] != 0 {
          break;
        }
        DrainStep(List(), cb, fired);
        DrainedStep(Both());
        ghost var a, p, n := active, pool, next;
        var k := FireFirst(cb);
        MovedTwice(old(active), old(pool), old(next), a, p, n, active, pool, next);
        fired := fired + [k];
      }
      Walk(head, next, active);
      DrainDone(List(), cb);
      DrainedDone(Both());
      assert fired + [] == fired;
    }

    lemma IsLoose(tt: nat)
      ensures Loose(tt) ==> Shape() && 0 < tt < POOL && tt !in active && tt !in pool && tt < |next| && next[tt] == NULL
      ensures Shape() ==> |next| == POOL
      ensures Shape() && 0 < tt < POOL && tt !in active && tt !in pool && next[tt] == NULL ==> Loose(tt)
    {
    }

    lemma StandsIn(at: nat)
      requires Shape() && R.Standing(Both(), at)
      ensures at == NULL || at in active || at in pool
    {
      ChainSlots(head, next, active);
      ChainSlots(poolHead, next, pool);
      HoldsIn(expiresAt, keyOf, active, at);
      HoldsIn(expiresAt, keyOf, pool, at);
    }

    /** An interrupt with its bottom halves, when the timer functions make no requests. */
    method QuietPass() returns (fired: seq<Key>)
      requires Shape() && Pending(List())
      modifies this`expiresAt, this`keyOf, this`next, this`head, this`poolHead, this`active, this`pool
      ensures Shape() && Both() == R.Interrupted(old(Both())) && keyOf == old(keyOf)
      ensures (List(), fired) == Pass(old(List()), R.Quiet)
      ensures Kept(next, old(next), old(active)) && Kept(expiresAt, old(expiresAt), old(active))
      ensures forall b :: b in active || b in pool ==> b in old(active) || b in old(pool)
    {
      hide Chain, Apart, Ok, Drain, R.Drained, R.Ticked, Tick, Pending;
      Walk(head, next, active);
      TaskListOf(expiresAt, keyOf, active) by { ChainSlots(head, next, active); }
      R.PendingOk(List());
      TickOk(List());
      fired := [];
      var wakes := IrqBh();
      if wakes {
        fired := TaskBh(R.Quiet);
      }
    }

    /** The insertion of the loose slot `tt` stands at `at`, and what is left of it completes `target`. */
    ghost predicate Midway(tt: nat, k: Key, at: nat, plan: seq<R.Moment>, target: R.Outcome, fired: seq<Key>)
      reads this
    {
      && Loose(tt) && keyOf[tt] == k && Pending(List()) && R.Standing(Both(), at)
      && var r := R.Run(Both(), at, R.Cell(tt, expiresAt[tt], k), plan);
         target.lists == r.lists && target.fired == fired + r.fired
    }

    /** An interrupt between two turns of the insertion. */
    method PassBetween(tt: nat, at: nat, ghost k: Key, ghost plan: seq<R.Moment>, ghost target: R.Outcome,
                       fired: seq<Key>)
      returns (now: seq<Key>)
      requires Midway(tt, k, at, plan, target, fired) && plan != [] && plan[0] == R.TimerTick
      modifies this`expiresAt, this`keyOf, this`next, this`head, this`poolHead, this`active, this`pool
      ensures Midway(tt, k, at, plan[1..], target, now)
    {
      hide Chain, Apart, Cells, Tasks, R.Sound, R.Run, R.Holds, R.Behind, Pending, Loose;
      hide Kept, Pass, Ok, R.Interrupted, R.KeysOf, R.Fired;
      IsLoose(tt);
      SoundOf(head, next, active, poolHead, pool, expiresAt, keyOf);
      R.RunTick(Both(), at, R.Cell(tt, expiresAt[tt], k), plan);
      R.PassOnSlots(Both());
      ghost var links, ticks, was := next, expiresAt, active;
      now := QuietPass();
      KeptAt(next, links, was, tt);
      KeptAt(expiresAt, ticks, was, tt);
      Regrouped(fired, now, R.Run(Both(), at, R.Cell(tt, expiresAt[tt], k), plan[1..]).fired);
      now := fired + now;
      IsLoose(tt);
      SoundOf(head, next, active, poolHead, pool, expiresAt, keyOf);
    }

    /** A turn of the insertion with no interrupt before it. */
    method TurnBetween(tt: nat, at: nat, ghost k: Key, ghost plan: seq<R.Moment>, ghost target: R.Outcome,
                       fired: seq<Key>)
      returns (placed: bool, on: nat)
      requires Midway(tt, k, at, plan, target, fired) && !(plan != [] && plan[0] == R.TimerTick)
      modifies this`expiresAt, this`next, this`head, this`active, this`pool
      ensures Shape() && (placed ==> Both() == target.lists && fired == target.fired)
      ensures !placed ==> Midway(tt, k, on, R.Rest(plan), target, fired)
      ensures !placed ==> R.Ahead(Both(), on) < old(R.Ahead(Both(), at))
    {
      hide Chain, Apart, Cells, Tasks, R.Sound, R.Run, R.Holds, R.Behind, Pending, InsertTurned, Loose;
      IsLoose(tt);
      StandsIn(at);
      SoundOf(head, next, active, poolHead, pool, expiresAt, keyOf);
      ghost var m, c := Both(), R.Cell(tt, expiresAt[tt], k);
      placed, on := InsertTurn(tt, at);
      RunTurned(m, at, c, plan, Both(), expiresAt[tt], placed, on);
      IsLoose(tt);
      SoundOf(head, next, active, poolHead, pool, expiresAt, keyOf);
      assert fired + [] == fired;
    }

    /**
     The loop of timer_task_insert with an interrupt wherever the plan has one before
     the next turn; afterwards `tt` is linked in somewhere, on the list or in the pool.
     */
    method TaskInsertInterrupted(tt: nat, plan: seq<R.Moment>) returns (fired: seq<Key>)
      requires Loose(tt) && Pending(List())
      modifies this`expiresAt, this`keyOf, this`next, this`head, this`poolHead, this`active, this`pool
      ensures Shape() && R.Standing(old(Both()), NULL)
      ensures var r := R.Run(old(Both()), NULL, R.Cell(tt, old(expiresAt)[tt], old(keyOf)[tt]), plan);
        Both() == r.lists && fired == r.fired
    {
      hide Chain, Apart, R.Sound, R.Run, R.Holds, R.Behind, Pending;
      SoundOf(head, next, active, poolHead, pool, expiresAt, keyOf);
      R.StandingAtHead(Both());
      ghost var k := keyOf[tt];
      ghost var target := R.Run(Both(), NULL, R.Cell(tt, expiresAt[tt], k), plan);
      fired := [];
      assert [] + target.fired == target.fired && plan[0..] == plan;
      var at, i, placed := NULL, 0, false;
      while !placed
        invariant i <= |plan| && Shape()
        invariant placed ==> Both() == target.lists && fired == target.fired
        invariant !placed ==> Midway(tt, k, at, plan[i..], target, fired)
        decreases |plan| - i, !placed, if placed then 0 else R.Ahead(Both(), at)
      {
        assert i < |plan| ==> plan[i..][0] == plan[i] && plan[i..][1..] == plan[i + 1..];
        if i < |plan| && plan[i] == R.TimerTick {
          fired := PassBetween(tt, at, k, plan[i..], target, fired);
          i := i + 1;
        } else {
          placed, at := TurnBetween(tt, at, k, plan[i..], target, fired);
          i := if i < |plan| then i + 1 else i;
        }
      }
    }

    /**
     Walks to the last `next` field and points it at the new entry (irq.c:45-57); `at` NULL stands for
     bh_table itself.
     */
    method Register(b: BottomHalf)
      requires TableOk() && b !in bhTable
      modifies this`bhHead, this`bhNext, this`bhTable
      ensures TableOk() && bhTable == old(bhTable) + [b]
    {
      var at, cur := NULL, bhHead;
      ghost var i := 0;
      while cur != NULL
        invariant 0 <= i <= |bhTable| && cur == Pointer(bhTable, i)
          && at == (if i == 0 then NULL else Address(bhTable[i - 1]))
        decreases |bhTable| - i
      {
        at, cur := cur, bhNext[cur];
        i := i + 1;
      }
      TableGrows(bhHead, bhNext, bhTable, b);
      if at == NULL {
        bhHead := Address(b);
      } else {
        bhNext := bhNext[at := Address(b)];
      }
      bhTable := bhTable + [b];
    }

    /** The top half flags the tick (timer.c:26-34). */
    method TimerIrq()
      modifies this`bhFlagged
      ensures bhFlagged == old(bhFlagged) + {TimerBh}
    {
      bhFlagged := bhFlagged + {TimerBh};
    }

    /** One turn of the loop of irq.c:62-69. */
    method RunEntry(b: BottomHalf, cb: Callbacks, before: seq<Key>) returns (fired: seq<Key>)
      requires Valid() && Ok(List()) && Polite(cb)
      modifies this`expiresAt, this`keyOf, this`next, this`head, this`poolHead, this`active, this`pool, this`bhFlagged
      ensures Valid() && Ok(List())
      ensures BhState(List(), bhFlagged, fired) == RunOne(b, BhState(old(List()), old(bhFlagged), before), cb)
    {
      hide Apart, Chain, Ok, Drain;
      fired := before;
      if b in bhFlagged {
        bhFlagged := bhFlagged - {b};
        match b {
          case TimerBh =>
            TickOk(List());
            var wakes := IrqBh();
            if wakes {
              bhFlagged := bhFlagged + {TtBh};
            }
          case TtBh =>
            var more := TaskBh(cb);
            fired := fired + more;
        }
      }
    }

    /** irq.c:59-71. */
    method BottomHalfExec(cb: Callbacks) returns (fired: seq<Key>)
      requires Valid() && Ok(List()) && Polite(cb) && TableOk()
      modifies this`expiresAt, this`keyOf, this`next, this`head, this`poolHead, this`active, this`pool, this`bhFlagged
      ensures Valid() && Ok(List()) && TableOk()
      ensures BhState(List(), bhFlagged, fired) == RunTable(bhTable, BhState(old(List()), old(bhFlagged), []), cb)
    {
      hide Apart, Chain, Ok, Drain, TableLinked, RunOne;
      TableWalk(bhHead, bhNext, bhTable);
      fired := [];
      ghost var result := RunTable(bhTable, BhState(List(), bhFlagged, []), cb);
      var bh := bhHead;
      ghost var i := 0;
      assert bhTable[0..] == bhTable;
      while bh != NULL
        invariant 0 <= i <= |bhTable| && bh == Pointer(bhTable, i)
        invariant Valid() && Ok(List())
        invariant RunTable(bhTable[i..], BhState(List(), bhFlagged, fired), cb) == result
        decreases |bhTable| - i
      {
        assert bhTable[i..][1..] == bhTable[i + 1..];
        fired := RunEntry(HalfAt(bh), cb, fired);
        bh := bhNext[bh];
        i := i + 1;
      }
    }

    /**
     A timer interrupt: the top half, then the bottom halves (irq.S:17-24). After timer_init that is one
     pass of the timers.
     */
    method Interrupt(cb: Callbacks) returns (fired: seq<Key>)
      requires Valid() && Ok(List()) && Polite(cb) && TableOk() && bhTable == [TimerBh, TtBh] && bhFlagged == {}
      modifies this
      ensures Valid() && Ok(List()) && TableOk() && bhTable == [TimerBh, TtBh] && bhFlagged == {}
      ensures (List(), fired) == Pass(old(List()), cb)
    {
      hide Apart, Chain, Ok, Drain, TableLinked;
      TickFirstIsAPass(List(), cb);
      TimerIrq();
      assert bhFlagged == {TimerBh};
      fired := BottomHalfExec(cb);
    }
  }
}
