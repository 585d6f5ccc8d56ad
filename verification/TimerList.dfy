/**
 The timer queue of kernel/src/interrupt/timer.c as a function on delta lists:
 each task stores its ticks relative to the task before it. A delta list stands
 for the list of absolute deadlines, its prefix sums.
 */
module TimerList {
  const INT_MAX: int := 0x7FFF_FFFF
  /** Slots 1 to 63 of the pool are ever used (timer.c:185-189). */
  const SLOTS: nat := 63

  datatype Key = Key(fn: nat, arg: nat)
  datatype Task = Task(delta: int, key: Key)
  datatype Due = Due(at: int, key: Key)

  /** `unsigned int` stored in an `int` field. */
  function ToInt(ticks: nat): int {
    if ticks <= INT_MAX then ticks else ticks - 0x1_0000_0000
  }

  // ---------- the code ----------

  function Insert(xs: seq<Task>, t: Task): seq<Task> {
    if xs == [] then [t]
    else if xs[0].delta > t.delta then [t, xs[0].(delta := xs[0].delta - t.delta)] + xs[1..]
    else [xs[0]] + Insert(xs[1..], t.(delta := t.delta - xs[0].delta))
  }

  /** The first task with key `k` leaves; its successor inherits its ticks. */
  function Remove(xs: seq<Task>, k: Key): seq<Task> {
    if xs == [] then []
    else if xs[0].key != k then [xs[0]] + Remove(xs[1..], k)
    else if |xs| == 1 then []
    else [xs[1].(delta := xs[1].delta + xs[0].delta)] + xs[2..]
  }

  function Add(xs: seq<Task>, k: Key, ticks: nat): seq<Task> {
    var ys := Remove(xs, k);
    if |ys| < SLOTS then Insert(ys, Task(ToInt(ticks), k)) else ys
  }

  /** timer_irq_bh: the head loses a tick, unless it has none left. */
  function Tick(xs: seq<Task>): seq<Task> {
    if xs != [] && xs[0].delta > 0 then [xs[0].(delta := xs[0].delta - 1)] + xs[1..] else xs
  }

  /** Does timer_irq_bh wake the drain loop? */
  predicate Wakes(xs: seq<Task>) {
    xs != [] && xs[0].delta <= 1
  }

  // ---------- what it means ----------

  function Absolute(xs: seq<Task>, base: int): seq<Due> {
    if xs == [] then []
    else [Due(base + xs[0].delta, xs[0].key)] + Absolute(xs[1..], base + xs[0].delta)
  }

  function Later(ds: seq<Due>, shift: int): seq<Due> {
    if ds == [] then [] else [ds[0].(at := ds[0].at + shift)] + Later(ds[1..], shift)
  }

  /** Stable insertion: behind every deadline that is not later. */
  function InsertDue(ds: seq<Due>, d: Due): seq<Due> {
    if ds == [] || ds[0].at > d.at then [d] + ds else [ds[0]] + InsertDue(ds[1..], d)
  }

  function RemoveDue(ds: seq<Due>, k: Key): seq<Due> {
    if ds == [] then [] else if ds[0].key == k then ds[1..] else [ds[0]] + RemoveDue(ds[1..], k)
  }

  /** Sorted by deadline, none before `low`. */
  ghost predicate SortedFrom(ds: seq<Due>, low: int) {
    ds == [] || (low <= ds[0].at && SortedFrom(ds[1..], ds[0].at))
  }

  ghost predicate NonNegative(xs: seq<Task>) {
    forall i :: 0 <= i < |xs| ==> xs[i].delta >= 0
  }

  lemma {:induction false} InsertIsSorted(xs: seq<Task>, t: Task, base: int)
    ensures Absolute(Insert(xs, t), base) == InsertDue(Absolute(xs, base), Due(base + t.delta, t.key))
  {
    if xs != [] {
      if xs[0].delta > t.delta {
        var ys := Insert(xs, t);
        assert ys[1..] == [xs[0].(delta := xs[0].delta - t.delta)] + xs[1..];
        assert ys[1..][1..] == xs[1..];
      } else {
        InsertIsSorted(xs[1..], t.(delta := t.delta - xs[0].delta), base + xs[0].delta);
        assert Insert(xs, t)[1..] == Insert(xs[1..], t.(delta := t.delta - xs[0].delta));
      }
    }
  }

  lemma {:induction false} RemoveKeepsOthers(xs: seq<Task>, k: Key, base: int)
    ensures Absolute(Remove(xs, k), base) == RemoveDue(Absolute(xs, base), k)
  {
    if xs != [] {
      if xs[0].key != k {
        RemoveKeepsOthers(xs[1..], k, base + xs[0].delta);
        assert Remove(xs, k)[1..] == Remove(xs[1..], k);
      } else if |xs| > 1 {
        assert Remove(xs, k)[1..] == xs[2..] == xs[1..][1..];
      }
    }
  }

  lemma {:induction false} Shift(xs: seq<Task>, base: int, shift: int)
    ensures Absolute(xs, base + shift) == Later(Absolute(xs, base), shift)
  {
    if xs != [] {
      Shift(xs[1..], base + xs[0].delta, shift);
    }
  }

  /** While the head has ticks left, one tick brings every deadline one closer. */
  lemma TickBringsCloser(xs: seq<Task>)
    requires xs != [] ==> xs[0].delta > 0
    ensures Absolute(Tick(xs), 0) == Later(Absolute(xs, 0), -1)
  {
    if xs != [] {
      assert Tick(xs)[1..] == xs[1..];
      Shift(xs[1..], xs[0].delta, -1);
    }
  }

  lemma {:induction false} NonNegativeIsSorted(xs: seq<Task>, base: int)
    requires NonNegative(xs)
    ensures SortedFrom(Absolute(xs, base), base)
  {
    if xs != [] {
      NonNegativeIsSorted(xs[1..], base + xs[0].delta);
    }
  }

  // ---------- machine integers ----------

  function Total(xs: seq<Task>): int {
    if xs == [] then 0 else xs[0].delta + Total(xs[1..])
  }

  /** Every stored value and every sum the code forms fits an `int`. */
  ghost predicate Fits(xs: seq<Task>) {
    NonNegative(xs) && Total(xs) <= INT_MAX
  }

  lemma {:induction false} InsertFits(xs: seq<Task>, t: Task)
    requires Fits(xs) && 0 <= t.delta <= INT_MAX
    ensures Fits(Insert(xs, t)) && Total(Insert(xs, t)) == if Total(xs) > t.delta then Total(xs) else t.delta
  {
    if xs != [] {
      TailTotal(xs[1..]);
      if xs[0].delta > t.delta {
        var ys := Insert(xs, t);
        assert ys[1..][1..] == xs[1..];
      } else {
        var t' := t.(delta := t.delta - xs[0].delta);
        InsertFits(xs[1..], t');
        assert Insert(xs, t)[1..] == Insert(xs[1..], t');
      }
    }
  }

  lemma {:induction false} TailTotal(xs: seq<Task>)
    requires NonNegative(xs)
    ensures Total(xs) >= 0
  {
    if xs != [] { TailTotal(xs[1..]); }
  }

  lemma {:induction false} RemoveFits(xs: seq<Task>, k: Key)
    requires Fits(xs)
    ensures Fits(Remove(xs, k)) && |Remove(xs, k)| <= |xs|
    ensures Total(Remove(xs, k)) <= Total(xs)
  {
    if xs != [] {
      TailTotal(xs[1..]);
      if xs[0].key != k {
        RemoveFits(xs[1..], k);
        assert Remove(xs, k)[1..] == Remove(xs[1..], k);
      } else if |xs| > 1 {
        TailTotal(xs[2..]);
        assert xs[1..][1..] == xs[2..];
        assert Remove(xs, k)[1..] == xs[2..];
      }
    }
  }

  /** Adding a task keeps all ticks within an `int`, and none negative, iff the request does not exceed INT_MAX. */
  lemma AddFitsIff(xs: seq<Task>, k: Key, ticks: nat)
    requires Fits(xs) && ticks < 0x1_0000_0000 && |Remove(xs, k)| < SLOTS
    ensures Fits(Add(xs, k, ticks)) <==> ticks <= INT_MAX
  {
    var ys := Remove(xs, k);
    RemoveFits(xs, k);
    if ticks <= INT_MAX {
      InsertFits(ys, Task(ticks, k));
    } else {
      assert Add(xs, k, ticks)[0] == Task(ToInt(ticks), k);
    }
  }

  /** The same 32 bits, read as an int. */
  lemma ToIntIs(ticks: nat)
    requires ticks < 0x1_0000_0000
    ensures -0x8000_0000 <= ToInt(ticks) < 0x8000_0000 && (ticks - ToInt(ticks)) % 0x1_0000_0000 == 0
  {
  }

  /** The drain is woken iff after the tick the head has no ticks left. */
  lemma WakesIff(xs: seq<Task>)
    ensures Wakes(xs) <==> xs != [] && Tick(xs)[0].delta <= 0
  {
  }

  // ---------- one entry per (fn, arg) ----------

  function Keys(xs: seq<Task>): set<Key> {
    set i | 0 <= i < |xs| :: xs[i].key
  }

  ghost predicate Unique(xs: seq<Task>) {
    xs == [] || (xs[0].key !in Keys(xs[1..]) && Unique(xs[1..]))
  }

  lemma KeysCons(t: Task, xs: seq<Task>)
    ensures Keys([t] + xs) == {t.key} + Keys(xs)
  {
    var ys := [t] + xs;
    assert forall i :: 0 < i < |ys| ==> ys[i] == xs[i - 1];
    forall k | k in Keys(xs) ensures k in Keys(ys) {
      var i :| 0 <= i < |xs| && xs[i].key == k;
      assert ys[i + 1].key == k;
    }
    assert ys[0].key == t.key;
  }

  lemma KeysSplit(xs: seq<Task>)
    requires xs != []
    ensures Keys(xs) == {xs[0].key} + Keys(xs[1..])
  {
    assert xs == [xs[0]] + xs[1..];
    KeysCons(xs[0], xs[1..]);
  }

  lemma {:induction false} InsertUnique(xs: seq<Task>, t: Task)
    requires Unique(xs) && t.key !in Keys(xs)
    ensures Keys(Insert(xs, t)) == Keys(xs) + {t.key} && Unique(Insert(xs, t)) && |Insert(xs, t)| == |xs| + 1
  {
    var ys := Insert(xs, t);
    if xs == [] {
      KeysCons(t, []);
      assert ys == [t] + [] && ys[1..] == [];
    } else {
      KeysSplit(xs);
      if xs[0].delta > t.delta {
        var x := xs[0].(delta := xs[0].delta - t.delta);
        var zs := [x] + xs[1..];
        KeysCons(x, xs[1..]);
        KeysCons(t, zs);
        assert ys == [t] + zs && ys[1..] == zs && zs[1..] == xs[1..];
      } else {
        var t' := t.(delta := t.delta - xs[0].delta);
        InsertUnique(xs[1..], t');
        KeysCons(xs[0], Insert(xs[1..], t'));
        assert ys[1..] == Insert(xs[1..], t');
      }
    }
  }

  lemma {:induction false} RemoveUnique(xs: seq<Task>, k: Key)
    requires Unique(xs)
    ensures Keys(Remove(xs, k)) == Keys(xs) - {k} && Unique(Remove(xs, k))
    ensures |Remove(xs, k)| == if k in Keys(xs) then |xs| - 1 else |xs|
  {
    if xs != [] {
      KeysSplit(xs);
      var ys := Remove(xs, k);
      if xs[0].key != k {
        RemoveUnique(xs[1..], k);
        KeysCons(xs[0], Remove(xs[1..], k));
        assert ys[1..] == Remove(xs[1..], k);
      } else if |xs| > 1 {
        var x := xs[1].(delta := xs[1].delta + xs[0].delta);
        KeysSplit(xs[1..]);
        KeysCons(x, xs[2..]);
        assert xs[1..][1..] == xs[2..] && ys[1..] == xs[2..];
      }
    }
  }

  /** An added task is on the list iff fewer than 63 others are. */
  lemma AddSucceedsIff(xs: seq<Task>, k: Key, ticks: nat)
    requires Unique(xs)
    ensures k in Keys(Add(xs, k, ticks)) <==> |Remove(xs, k)| < 63
  {
    RemoveUnique(xs, k);
    if |Remove(xs, k)| < SLOTS { InsertUnique(Remove(xs, k), Task(ToInt(ticks), k)); }
  }

  // ---------- requests, passes and runs ----------

  datatype Request = AddRequest(key: Key, ticks: nat) | RemoveRequest(key: Key)

  function Serve(xs: seq<Task>, r: Request): seq<Task> {
    match r
    case AddRequest(k, ticks) => Add(xs, k, ticks)
    case RemoveRequest(k) => Remove(xs, k)
  }

  function ServeAll(xs: seq<Task>, rs: seq<Request>): seq<Task>
    decreases |rs|
  {
    if rs == [] then xs else ServeAll(Serve(xs, rs[0]), rs[1..])
  }

  /** A request for at least one tick, as an `int`. */
  ghost predicate Sensible(r: Request) {
    r.AddRequest? ==> 1 <= r.ticks <= INT_MAX
  }

  ghost predicate AllSensible(rs: seq<Request>) {
    forall i :: 0 <= i < |rs| ==> Sensible(rs[i])
  }

  /** What the timer functions do when they are called: the requests each makes. */
  type Callbacks = Key -> seq<Request>

  ghost predicate Polite(cb: Callbacks) {
    forall k :: AllSensible(cb(k))
  }

  /** Tasks at the front whose time has come. */
  function Ripe(xs: seq<Task>): nat {
    if xs == [] || xs[0].delta != 0 then 0 else 1 + Ripe(xs[1..])
  }

  ghost predicate Ok(xs: seq<Task>) {
    Fits(xs) && Unique(xs) && |xs| <= SLOTS
  }

  lemma {:induction false} InsertKeepsRipe(xs: seq<Task>, t: Task)
    requires NonNegative(xs) && t.delta >= 1
    ensures Ripe(Insert(xs, t)) == Ripe(xs)
  {
    if xs != [] && xs[0].delta <= t.delta {
      var t' := t.(delta := t.delta - xs[0].delta);
      if xs[0].delta == 0 { InsertKeepsRipe(xs[1..], t'); }
      assert Insert(xs, t)[1..] == Insert(xs[1..], t');
    }
  }

  lemma {:induction false} RemoveKeepsRipe(xs: seq<Task>, k: Key)
    requires NonNegative(xs)
    ensures Ripe(Remove(xs, k)) <= Ripe(xs)
  {
    if xs != [] {
      if xs[0].key != k {
        RemoveKeepsRipe(xs[1..], k);
        assert Remove(xs, k)[1..] == Remove(xs[1..], k);
      } else if |xs| > 1 {
        assert xs[1..][1..] == xs[2..];
        assert Remove(xs, k)[1..] == xs[2..];
      }
    }
  }

  lemma ServeOk(xs: seq<Task>, r: Request)
    requires Ok(xs) && Sensible(r)
    ensures Ok(Serve(xs, r)) && Ripe(Serve(xs, r)) <= Ripe(xs)
  {
    RemoveFits(xs, r.key);
    RemoveUnique(xs, r.key);
    RemoveKeepsRipe(xs, r.key);
    var ys := Remove(xs, r.key);
    if r.AddRequest? && |ys| < SLOTS {
      InsertFits(ys, Task(r.ticks, r.key));
      InsertUnique(ys, Task(r.ticks, r.key));
      InsertKeepsRipe(ys, Task(r.ticks, r.key));
    }
  }

  lemma {:induction false} ServeAllOk(xs: seq<Task>, rs: seq<Request>)
    requires Ok(xs) && AllSensible(rs)
    ensures Ok(ServeAll(xs, rs)) && Ripe(ServeAll(xs, rs)) <= Ripe(xs)
    decreases |rs|
  {
    if rs != [] {
      ServeOk(xs, rs[0]);
      ServeAllOk(Serve(xs, rs[0]), rs[1..]);
    }
  }

  lemma TailOk(xs: seq<Task>)
    requires Ok(xs) && xs != [] && xs[0].delta == 0
    ensures Ok(xs[1..]) && Ripe(xs[1..]) < Ripe(xs)
  {
  }

  /** timer_task_bh: ripe tasks leave one by one, each calling its function before the next is looked at. */
  ghost function Drain(xs: seq<Task>, cb: Callbacks): (r: (seq<Task>, seq<Key>))
    requires Ok(xs) && Polite(cb)
    ensures Ok(r.0) && (r.0 != [] ==> r.0[0].delta > 0)
    decreases Ripe(xs)
  {
    if xs == [] || xs[0].delta != 0 then (xs, [])
    else
      TailOk(xs);
      ServeAllOk(xs[1..], cb(xs[0].key));
      var (rest, fired) := Drain(ServeAll(xs[1..], cb(xs[0].key)), cb);
      (rest, [xs[0].key] + fired)
  }

  /** One pass of the bottom halves after a timer interrupt: the tick first, then, if woken, the drain. */
  ghost function Pass(xs: seq<Task>, cb: Callbacks): (r: (seq<Task>, seq<Key>))
    requires Ok(xs) && Polite(cb)
    ensures Ok(r.0)
  {
    TickOk(xs);
    if Wakes(xs) then Drain(Tick(xs), cb) else (Tick(xs), [])
  }

  lemma TickOk(xs: seq<Task>)
    requires Ok(xs)
    ensures Ok(Tick(xs))
  {
    if xs != [] && xs[0].delta > 0 {
      assert Tick(xs)[1..] == xs[1..];
    }
  }

  // ---------- a task fires on time ----------

  const NEVER: int := -1

  /** The deadline of key `k`, or NEVER. */
  function DeadlineOf(ds: seq<Due>, k: Key): int {
    if ds == [] then NEVER else if ds[0].key == k then ds[0].at else DeadlineOf(ds[1..], k)
  }

  function Remaining(xs: seq<Task>, k: Key): int {
    DeadlineOf(Absolute(xs, 0), k)
  }

  lemma {:induction false} InsertDeadline(ds: seq<Due>, d: Due, k: Key)
    ensures k != d.key ==> DeadlineOf(InsertDue(ds, d), k) == DeadlineOf(ds, k)
    ensures k == d.key && DeadlineOf(ds, k) == NEVER && (forall i :: 0 <= i < |ds| ==> ds[i].at >= 0)
      ==> DeadlineOf(InsertDue(ds, d), k) == d.at
  {
    if ds != [] && ds[0].at <= d.at {
      InsertDeadline(ds[1..], d, k);
      assert InsertDue(ds, d)[1..] == InsertDue(ds[1..], d);
    } else {
      assert InsertDue(ds, d)[1..] == ds;
    }
  }

  lemma {:induction false} RemoveDeadline(ds: seq<Due>, gone: Key, k: Key)
    requires k != gone
    ensures DeadlineOf(RemoveDue(ds, gone), k) == DeadlineOf(ds, k)
  {
    if ds != [] && ds[0].key != gone {
      RemoveDeadline(ds[1..], gone, k);
      assert RemoveDue(ds, gone)[1..] == RemoveDue(ds[1..], gone);
    }
  }

  lemma {:induction false} AbsoluteFacts(xs: seq<Task>, base: int, k: Key)
    requires NonNegative(xs) && base >= 0
    ensures forall i :: 0 <= i < |Absolute(xs, base)| ==> Absolute(xs, base)[i].at >= base
    ensures DeadlineOf(Absolute(xs, base), k) == NEVER <==> k !in Keys(xs)
    ensures k in Keys(xs) ==> DeadlineOf(Absolute(xs, base), k) >= base
  {
    if xs != [] {
      KeysSplit(xs);
      AbsoluteFacts(xs[1..], base + xs[0].delta, k);
    }
  }

  /** A request leaves the deadline of every other task alone. */
  lemma ServeKeepsDeadline(xs: seq<Task>, r: Request, k: Key)
    requires Ok(xs) && Sensible(r) && r.key != k
    ensures Remaining(Serve(xs, r), k) == Remaining(xs, k)
  {
    RemoveKeepsOthers(xs, r.key, 0);
    RemoveDeadline(Absolute(xs, 0), r.key, k);
    if r.AddRequest? {
      var ys, t := Remove(xs, r.key), Task(r.ticks, r.key);
      InsertIsSorted(ys, t, 0);
      InsertDeadline(Absolute(ys, 0), Due(t.delta, t.key), k);
    }
  }

  /** A successful add sets the deadline of its own task. */
  lemma AddSetsDeadline(xs: seq<Task>, k: Key, ticks: nat)
    requires Ok(xs) && ticks <= INT_MAX && |Remove(xs, k)| < SLOTS
    ensures Remaining(Add(xs, k, ticks), k) == ticks
  {
    var ys, t := Remove(xs, k), Task(ticks, k);
    RemoveFits(xs, k);
    RemoveUnique(xs, k);
    AbsoluteFacts(ys, 0, k);
    InsertIsSorted(ys, t, 0);
    InsertDeadline(Absolute(ys, 0), Due(ticks, k), k);
  }

  ghost predicate Spares(rs: seq<Request>, k: Key) {
    forall i :: 0 <= i < |rs| ==> rs[i].key != k
  }

  lemma {:induction false} ServeAllKeepsDeadline(xs: seq<Task>, rs: seq<Request>, k: Key)
    requires Ok(xs) && AllSensible(rs) && Spares(rs, k)
    ensures Remaining(ServeAll(xs, rs), k) == Remaining(xs, k)
    decreases |rs|
  {
    if rs != [] {
      ServeOk(xs, rs[0]);
      ServeKeepsDeadline(xs, rs[0], k);
      ServeAllKeepsDeadline(Serve(xs, rs[0]), rs[1..], k);
    }
  }

  ghost predicate AllSpare(cb: Callbacks, k: Key) {
    forall c :: Spares(cb(c), k)
  }

  /** The drain fires exactly the tasks whose deadline is now, and leaves the others' deadlines alone. */
  lemma {:induction false} DrainFiresRipe(xs: seq<Task>, cb: Callbacks, k: Key)
    requires Ok(xs) && Polite(cb) && AllSpare(cb, k) && k in Keys(xs)
    ensures var (rest, fired) := Drain(xs, cb);
      && (k in fired <==> Remaining(xs, k) == 0)
      && (Remaining(xs, k) > 0 ==> Remaining(rest, k) == Remaining(xs, k))
    decreases Ripe(xs)
  {
    AbsoluteFacts(xs, 0, k);
    KeysSplit(xs);
    if xs[0].delta != 0 {
      AbsoluteFacts(xs[1..], xs[0].delta, k);
    } else {
      TailOk(xs);
      var ys := ServeAll(xs[1..], cb(xs[0].key));
      ServeAllOk(xs[1..], cb(xs[0].key));
      ServeAllKeepsDeadline(xs[1..], cb(xs[0].key), k);
      AbsoluteFacts(xs[1..], 0, k);
      AbsoluteFacts(ys, 0, k);
      if k == xs[0].key {
        DrainSkips(ys, cb, k);
      } else {
        DrainFiresRipe(ys, cb, k);
      }
    }
  }

  lemma {:induction false} DrainSkips(xs: seq<Task>, cb: Callbacks, k: Key)
    requires Ok(xs) && Polite(cb) && AllSpare(cb, k) && k !in Keys(xs)
    ensures k !in Drain(xs, cb).1 && k !in Keys(Drain(xs, cb).0)
    decreases Ripe(xs)
  {
    if xs != [] && xs[0].delta == 0 {
      KeysSplit(xs);
      TailOk(xs);
      var ys := ServeAll(xs[1..], cb(xs[0].key));
      ServeAllOk(xs[1..], cb(xs[0].key));
      ServeAllKeepsDeadline(xs[1..], cb(xs[0].key), k);
      AbsoluteFacts(xs[1..], 0, k);
      AbsoluteFacts(ys, 0, k);
      DrainSkips(ys, cb, k);
    }
  }

  lemma {:induction false} LaterDeadline(ds: seq<Due>, shift: int, k: Key)
    requires exists i :: 0 <= i < |ds| && ds[i].key == k
    ensures DeadlineOf(Later(ds, shift), k) == DeadlineOf(ds, k) + shift
  {
    if ds[0].key != k {
      var i :| 0 <= i < |ds| && ds[i].key == k;
      assert ds[1..][i - 1].key == k;
      LaterDeadline(ds[1..], shift, k);
    }
  }

  lemma {:induction false} AbsoluteKeys(xs: seq<Task>, base: int)
    ensures |Absolute(xs, base)| == |xs| && forall i :: 0 <= i < |xs| ==> Absolute(xs, base)[i].key == xs[i].key
  {
    if xs != [] { AbsoluteKeys(xs[1..], base + xs[0].delta); }
  }

  /** Between passes every task has at least a tick to go. */
  ghost predicate Pending(xs: seq<Task>) {
    Ok(xs) && (xs != [] ==> xs[0].delta > 0)
  }

  lemma ServeKeepsPending(xs: seq<Task>, r: Request)
    requires Pending(xs) && Sensible(r)
    ensures Pending(Serve(xs, r))
  {
    ServeOk(xs, r);
  }

  /** One pass fires a task with one tick to go and takes one tick off every other. */
  lemma PassOnTime(xs: seq<Task>, cb: Callbacks, k: Key)
    requires Pending(xs) && Polite(cb) && AllSpare(cb, k) && k in Keys(xs)
    ensures var (rest, fired) := Pass(xs, cb);
      && Pending(rest)
      && (k in fired <==> Remaining(xs, k) == 1)
      && (Remaining(xs, k) > 1 ==> k in Keys(rest) && Remaining(rest, k) == Remaining(xs, k) - 1)
  {
    var ys := Tick(xs);
    TickOk(xs);
    TickBringsCloser(xs);
    AbsoluteKeys(xs, 0);
    LaterDeadline(Absolute(xs, 0), -1, k);
    AbsoluteFacts(xs, 0, k);
    assert Keys(ys) == Keys(xs) by {
      KeysSplit(xs);
      KeysSplit(ys);
      assert ys[1..] == xs[1..];
    }
    AbsoluteFacts(ys, 0, k);
    if Wakes(xs) {
      DrainFiresRipe(ys, cb, k);
      AbsoluteFacts(Drain(ys, cb).0, 0, k);
    } else {
      KeysSplit(xs);
      AbsoluteFacts(xs[1..], xs[0].delta, k);
    }
  }

  datatype Event = Client(r: Request) | Interrupt(cb: Callbacks)

  /** Everything asks for at least one tick, and nothing adds or removes `k`. */
  ghost predicate Calm(e: Event, k: Key) {
    match e
    case Client(r) => Sensible(r) && r.key != k
    case Interrupt(cb) => Polite(cb) && AllSpare(cb, k)
  }

  ghost predicate AllCalm(es: seq<Event>, k: Key) {
    forall i :: 0 <= i < |es| ==> Calm(es[i], k)
  }

  ghost function Passes(es: seq<Event>): nat {
    if es == [] then 0 else (if es[0].Interrupt? then 1 else 0) + Passes(es[1..])
  }

  /** The number of the first pass that fires `k`, counted from 1; 0 if none does. */
  ghost function FiringPass(xs: seq<Task>, es: seq<Event>, k: Key): nat
    requires Ok(xs) && AllCalm(es, k)
    decreases |es|
  {
    if es == [] then 0
    else
      assert Calm(es[0], k);
      match es[0]
      case Client(r) =>
        ServeOk(xs, r);
        FiringPass(Serve(xs, r), es[1..], k)
      case Interrupt(cb) =>
        var (rest, fired) := Pass(xs, cb);
        if k in fired then 1
        else
          var n := FiringPass(rest, es[1..], k);
          if n == 0 then 0 else n + 1
  }

  /** A task with `d` ticks to go fires in the d-th pass from now, not before and not later. */
  lemma {:induction false} FiresInItsPass(xs: seq<Task>, es: seq<Event>, k: Key)
    requires Pending(xs) && AllCalm(es, k) && k in Keys(xs)
    ensures Remaining(xs, k) >= 1
    ensures FiringPass(xs, es, k) == if Passes(es) >= Remaining(xs, k) then Remaining(xs, k) else 0
    decreases |es|
  {
    AbsoluteFacts(xs, 0, k);
    KeysSplit(xs);
    AbsoluteFacts(xs[1..], xs[0].delta, k);
    if es != [] {
      assert Calm(es[0], k);
      match es[0]
      case Client(r) =>
        ServeKeepsPending(xs, r);
        ServeKeepsDeadline(xs, r, k);
        AbsoluteFacts(Serve(xs, r), 0, k);
        FiresInItsPass(Serve(xs, r), es[1..], k);
      case Interrupt(cb) =>
        PassOnTime(xs, cb, k);
        if Remaining(xs, k) > 1 {
          FiresInItsPass(Pass(xs, cb).0, es[1..], k);
        }
    }
  }

  lemma PassSkips(xs: seq<Task>, cb: Callbacks, k: Key)
    requires Pending(xs) && Polite(cb) && AllSpare(cb, k) && k !in Keys(xs)
    ensures var (rest, fired) := Pass(xs, cb);
      Pending(rest) && k !in Keys(rest) && k !in fired
  {
    var ys := Tick(xs);
    TickOk(xs);
    assert Keys(ys) == Keys(xs) by {
      assert |ys| == |xs| && forall i :: 0 <= i < |xs| ==> ys[i].key == xs[i].key;
    }
    if Wakes(xs) { DrainSkips(ys, cb, k); }
  }

  /** A task that is not on the list never fires if nothing adds it. */
  lemma {:induction false} NeverFires(xs: seq<Task>, es: seq<Event>, k: Key)
    requires Pending(xs) && AllCalm(es, k) && k !in Keys(xs)
    ensures FiringPass(xs, es, k) == 0
    decreases |es|
  {
    if es != [] {
      assert Calm(es[0], k);
      match es[0]
      case Client(r) =>
        ServeKeepsPending(xs, r);
        ServeKeepsDeadline(xs, r, k);
        AbsoluteFacts(xs, 0, k);
        AbsoluteFacts(Serve(xs, r), 0, k);
        NeverFires(Serve(xs, r), es[1..], k);
      case Interrupt(cb) =>
        PassSkips(xs, cb, k);
        NeverFires(Pass(xs, cb).0, es[1..], k);
    }
  }

  /** So a task added with `ticks` ticks fires exactly in the pass of that number. */
  lemma AddedTaskFiresOnTime(xs: seq<Task>, k: Key, ticks: nat, es: seq<Event>)
    requires Pending(xs) && 1 <= ticks <= INT_MAX && |Remove(xs, k)| < SLOTS && AllCalm(es, k)
    ensures Ok(Add(xs, k, ticks))
    ensures FiringPass(Add(xs, k, ticks), es, k) == if Passes(es) >= ticks then ticks else 0
  {
    ServeKeepsPending(xs, AddRequest(k, ticks));
    AddSetsDeadline(xs, k, ticks);
    AbsoluteFacts(Add(xs, k, ticks), 0, k);
    FiresInItsPass(Add(xs, k, ticks), es, k);
  }

  // ---------- the bottom-half table ----------

  /** The two bottom halves timer_init registers. */
  datatype BottomHalf = TimerBh | TtBh

  datatype BhState = BhState(tasks: seq<Task>, flagged: set<BottomHalf>, fired: seq<Key>)

  /** Running one bottom half: its flag is cleared first; the tick may flag the drain. */
  ghost function RunOne(b: BottomHalf, s: BhState, cb: Callbacks): (r: BhState)
    requires Ok(s.tasks) && Polite(cb)
    ensures Ok(r.tasks)
  {
    if b !in s.flagged then s
    else
      var left := s.flagged - {b};
      match b
      case TimerBh =>
        TickOk(s.tasks);
        BhState(Tick(s.tasks), if Wakes(s.tasks) then left + {TtBh} else left, s.fired)
      case TtBh =>
        var (rest, fired) := Drain(s.tasks, cb);
        BhState(rest, left, s.fired + fired)
  }

  /** irq_bottom_half_exec: the table in order of registration (irq.c:59-71). */
  ghost function RunTable(table: seq<BottomHalf>, s: BhState, cb: Callbacks): (r: BhState)
    requires Ok(s.tasks) && Polite(cb)
    ensures Ok(r.tasks)
    decreases |table|
  {
    if table == [] then s else RunTable(table[1..], RunOne(table[0], s, cb), cb)
  }

  /** With the tick registered first, one run of the table after an interrupt is one pass. */
  lemma TickFirstIsAPass(xs: seq<Task>, cb: Callbacks)
    requires Ok(xs) && Polite(cb)
    ensures var r := RunTable([TimerBh, TtBh], BhState(xs, {TimerBh}, []), cb);
      (r.tasks, r.fired) == Pass(xs, cb) && r.flagged == {}
  {
    var s1 := RunOne(TimerBh, BhState(xs, {TimerBh}, []), cb);
    var s2 := RunOne(TtBh, s1, cb);
    assert [TimerBh, TtBh][1..] == [TtBh] && [TtBh][1..] == [];
    assert RunTable([TtBh], s1, cb) == s2;
    assert [] + Pass(xs, cb).1 == Pass(xs, cb).1;
  }

  /** Registered the other way round nothing would fire in this run; the drain would stay flagged for the next. */
  lemma DrainFirstFiresLate(xs: seq<Task>, cb: Callbacks)
    requires Ok(xs) && Polite(cb)
    ensures var r := RunTable([TtBh, TimerBh], BhState(xs, {TimerBh}, []), cb);
      r.fired == [] && r.tasks == Tick(xs) && r.flagged == (if Wakes(xs) then {TtBh} else {})
  {
    var s := BhState(xs, {TimerBh}, []);
    assert RunOne(TtBh, s, cb) == s;
    assert [TtBh, TimerBh][1..] == [TimerBh] && [TimerBh][1..] == [];
    assert RunTable([TimerBh], s, cb) == RunOne(TimerBh, s, cb);
  }
}
