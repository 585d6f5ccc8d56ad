/**
 Pending signals and the reaping of zombies (kernel/src/interrupt/signal.c:11-47
 and kernel/src/proc/proc.c:53-111) as functions on the process list.
 */
module Reaping {
  import opened Dll

  /** NUM_SIGNALS */
  const NUM_SIGNALS: nat := 32
  const SIGCHLD: nat := 17

  /** The process list in order, the free list, and the fields reaping reads and writes. */
  datatype Family = Family(listed: seq<nat>, free: seq<nat>, parent: map<nat, nat>, zombies: set<nat>,
                           children: map<nat, int>)

  predicate IsChild(f: Family, p: nat, of: nat) {
    p in f.parent && f.parent[p] == of && p in f.zombies
  }

  /** The first zombie child in `ps`, NULL if there is none. */
  function FirstZombie(f: Family, ps: seq<nat>, of: nat): nat {
    if ps == [] then NULL else if IsChild(f, ps[0], of) then ps[0] else FirstZombie(f, ps[1..], of)
  }

  /** proc_get_next_zombley: the list behind its head. */
  function NextZombie(f: Family, of: nat): nat
    requires f.listed != []
  {
    FirstZombie(f, f.listed[1..], of)
  }

  /** proc_release: the slot is cleared and goes to the front of the free list. */
  function Release(f: Family, p: nat): Family {
    f.(listed := Delete(f.listed, p), free := [p] + f.free, parent := f.parent[p := NULL], zombies := f.zombies - {p},
       children := f.children[p := 0])
  }

  /** proc_release_zombley */
  function ReleaseZombie(f: Family, p: nat): Family
    requires p in f.parent && (f.parent[p] != NULL ==> f.parent[p] in f.children)
  {
    var mother := f.parent[p];
    var r := Release(f, p);
    if mother != NULL then r.(children := r.children[mother := r.children[mother] - 1]) else r
  }

  ghost predicate Inv(f: Family) {
    && NoDup(f.listed) && NoDup(f.free) && NULL !in f.listed && NULL !in f.free
    && (forall p :: p in f.listed ==> p !in f.free && p in f.parent && p in f.children)
  }

  /** A live process of this list; it is nobody's zombie. */
  ghost predicate Alive(f: Family, p: nat) {
    p != NULL && p in f.children && p !in f.zombies && p !in f.free
  }

  function Keep(f: Family, ps: seq<nat>, of: nat): seq<nat> {
    if ps == [] then []
    else if IsChild(f, ps[0], of) then Keep(f, ps[1..], of)
    else [ps[0]] + Keep(f, ps[1..], of)
  }

  // ---------- one zombie ----------

  lemma {:induction false} FirstZombieFacts(f: Family, ps: seq<nat>, of: nat)
    requires NULL !in ps
    ensures var z := FirstZombie(f, ps, of);
      && (z != NULL ==> z in ps && IsChild(f, z, of))
      && (z == NULL ==> Keep(f, ps, of) == ps && forall p :: p in ps ==> !IsChild(f, p, of))
  {
    if ps != [] {
      assert ps == [ps[0]] + ps[1..];
      if !IsChild(f, ps[0], of) { FirstZombieFacts(f, ps[1..], of); }
    }
  }

  /** The same processes of `ps` are zombie children in both. */
  ghost predicate Agree(f: Family, g: Family, ps: seq<nat>, of: nat) {
    forall p :: p in ps ==> (IsChild(f, p, of) <==> IsChild(g, p, of))
  }

  lemma {:induction false} KeepDependsOnListed(f: Family, g: Family, ps: seq<nat>, of: nat)
    requires Agree(f, g, ps, of)
    ensures Keep(f, ps, of) == Keep(g, ps, of)
  {
    if ps != [] {
      assert ps[0] in ps && forall p :: p in ps[1..] ==> p in ps;
      KeepDependsOnListed(f, g, ps[1..], of);
    }
  }

  /** Taking the first zombie out does not change who is kept. */
  lemma {:induction false} KeepWithoutFirst(f: Family, g: Family, ps: seq<nat>, of: nat)
    requires NoDup(ps) && NULL !in ps && FirstZombie(f, ps, of) != NULL
    requires forall p :: p in ps && p != FirstZombie(f, ps, of) ==> (IsChild(f, p, of) <==> IsChild(g, p, of))
    ensures Keep(g, Delete(ps, FirstZombie(f, ps, of)), of) == Keep(f, ps, of)
  {
    var rest, z := ps[1..], FirstZombie(f, ps, of);
    assert ps == [ps[0]] + rest && ps[0] !in rest && NoDup(rest);
    if IsChild(f, ps[0], of) {
      KeepDependsOnListed(f, g, rest, of);
    } else {
      FirstZombieFacts(f, rest, of);
      KeepWithoutFirst(f, g, rest, of);
      assert Delete(ps, z) == [ps[0]] + Delete(rest, z);
      assert ([ps[0]] + Delete(rest, z))[1..] == Delete(rest, z);
    }
  }

  /** One turn of the reaping loop, which takes `z`. */
  ghost predicate OneReaped(f: Family, z: nat, r: Family, of: nat) {
    && f.listed != [] && z in f.listed[1..] && IsChild(f, z, of) && z != of && of in f.children
    && r.listed == [f.listed[0]] + Delete(f.listed[1..], z) && |r.listed| == |f.listed| - 1
    && (forall p :: p in r.listed <==> p in f.listed && p != z)
    && r.free == [z] + f.free
    && r.children == f.children[z := 0][of := f.children[of] - 1]
    && r.parent == f.parent[z := NULL] && r.zombies == f.zombies - {z}
  }

  lemma FamilySplit(f: Family)
    requires Inv(f) && f.listed != []
    ensures var h, rest := f.listed[0], f.listed[1..];
      f.listed == [h] + rest && h !in rest && NoDup(rest) && NULL !in rest && forall p :: p in rest ==> p in f.listed
  {
  }

  lemma ReleaseIsOneReaped(f: Family, of: nat)
    requires Inv(f) && f.listed != [] && Alive(f, of) && NextZombie(f, of) != NULL
    ensures var z := NextZombie(f, of);
      && z in f.parent && (f.parent[z] != NULL ==> f.parent[z] in f.children)
      && OneReaped(f, z, ReleaseZombie(f, z), of)
  {
    var h, rest, z := f.listed[0], f.listed[1..], NextZombie(f, of);
    FamilySplit(f);
    FirstZombieFacts(f, rest, of);
    DeleteFacts(rest, z);
    DeleteFacts(f.listed, z);
    assert Delete(f.listed, z) == [h] + Delete(rest, z);
    hide Delete, FirstZombie, NoDup;
  }

  lemma OneReapedInv(f: Family, z: nat, r: Family, of: nat)
    requires Inv(f) && Alive(f, of) && OneReaped(f, z, r, of)
    ensures Inv(r) && Alive(r, of)
  {
    FamilySplit(f);
    DeleteFacts(f.listed[1..], z);
    assert z in f.listed;
    hide Delete;
  }

  lemma OneReapedKeep(f: Family, z: nat, r: Family, of: nat)
    requires Inv(f) && f.listed != [] && OneReaped(f, z, r, of) && z == NextZombie(f, of)
    ensures Keep(r, r.listed[1..], of) == Keep(f, f.listed[1..], of)
  {
    FamilySplit(f);
    assert r.listed[1..] == Delete(f.listed[1..], z);
    assert z in f.listed;
    hide Delete, Keep, NoDup;
    KeepWithoutFirst(f, r, f.listed[1..], of);
  }

  lemma ReleaseZombieFacts(f: Family, of: nat)
    requires Inv(f) && f.listed != [] && Alive(f, of) && NextZombie(f, of) != NULL
    ensures var z := NextZombie(f, of);
      && z in f.parent && (f.parent[z] != NULL ==> f.parent[z] in f.children)
      && var r := ReleaseZombie(f, z);
      && OneReaped(f, z, r, of) && Inv(r) && Alive(r, of) && Keep(r, r.listed[1..], of) == Keep(f, f.listed[1..], of)
      && r.listed != [] && |r.listed| == |f.listed| - 1
  {
    hide Inv, Delete, NextZombie, Keep, Alive, ReleaseZombie;
    ReleaseIsOneReaped(f, of);
    var z := NextZombie(f, of);
    OneReapedInv(f, z, ReleaseZombie(f, z), of);
    OneReapedKeep(f, z, ReleaseZombie(f, z), of);
  }

  // ---------- the reaping loop ----------

  function Reap(f: Family, of: nat): Family
    requires Inv(f) && f.listed != [] && Alive(f, of)
    decreases |f.listed|
  {
    var z := NextZombie(f, of);
    if z == NULL then f
    else
      ReleaseZombieFacts(f, of);
      Reap(ReleaseZombie(f, z), of)
  }

  /** The lists: exactly the zombie children behind the head are gone, and every slot is still on one of the lists. */
  ghost predicate ReapedLists(f: Family, r: Family, of: nat) {
    && f.listed != [] && r.listed == [f.listed[0]] + Keep(f, f.listed[1..], of)
    && |r.listed| + |r.free| == |f.listed| + |f.free|
    && (forall p :: p in f.listed || p in f.free <==> p in r.listed || p in r.free)
    && (forall p :: p in r.listed ==> p in f.listed)
    && (forall p :: p in r.free ==> p in f.free || (p in f.listed[1..] && IsChild(f, p, of)))
    && (forall p :: p in f.free ==> p in r.free)
  }

  /** The fields: each one gone counts once for the parent, and nobody left is touched otherwise. */
  ghost predicate ReapedFields(f: Family, r: Family, of: nat) {
    && of in f.children && of in r.children
    && r.children[of] == f.children[of] - (|f.listed| - |r.listed|)
    && forall p :: p in r.listed ==>
         && p in f.parent && p in r.parent && r.parent[p] == f.parent[p] && (p in r.zombies <==> p in f.zombies)
         && (p != of ==> p in f.children && p in r.children && r.children[p] == f.children[p])
  }

  ghost predicate Reaped(f: Family, r: Family, of: nat) {
    Inv(f) && Inv(r) && ReapedLists(f, r, of) && ReapedFields(f, r, of)
  }

  lemma ReapNothing(f: Family, of: nat)
    requires Inv(f) && f.listed != [] && Alive(f, of) && NextZombie(f, of) == NULL
    ensures Reaped(f, f, of)
  {
    FirstZombieFacts(f, f.listed[1..], of);
    assert f.listed == [f.listed[0]] + f.listed[1..];
  }

  lemma MoreReaped(f: Family, z: nat, m: Family, of: nat)
    requires f.listed != [] && NoDup(f.listed[1..]) && OneReaped(f, z, m, of)
    ensures m.listed[1..] == Delete(f.listed[1..], z)
    ensures forall p :: p in m.free ==> p in f.free || p == z
    ensures forall p :: p in m.listed[1..] ==> p in f.listed[1..] && (IsChild(m, p, of) ==> IsChild(f, p, of))
  {
    DeleteFacts(f.listed[1..], z);
    assert m.listed[1..] == Delete(f.listed[1..], z);
    hide Delete, NoDup;
  }

  lemma ReapMoreLists(f: Family, z: nat, m: Family, r: Family, of: nat)
    requires Inv(f) && Inv(m) && OneReaped(f, z, m, of) && Keep(m, m.listed[1..], of) == Keep(f, f.listed[1..], of)
    requires ReapedLists(m, r, of)
    ensures ReapedLists(f, r, of)
  {
    FamilySplit(f);
    FamilySplit(m);
    hide Delete, Keep, NoDup, Inv, IsChild;
    MoreReaped(f, z, m, of);
  }

  lemma ReapMoreFields(f: Family, z: nat, m: Family, r: Family, of: nat)
    requires OneReaped(f, z, m, of) && ReapedFields(m, r, of) && forall p :: p in r.listed ==> p in m.listed
    requires Inv(f)
    ensures ReapedFields(f, r, of)
  {
    hide Delete, NoDup;
  }

  lemma ReapOneMore(f: Family, z: nat, m: Family, r: Family, of: nat)
    requires Inv(f) && OneReaped(f, z, m, of) && m.listed != []
      && Keep(m, m.listed[1..], of) == Keep(f, f.listed[1..], of)
    requires Reaped(m, r, of)
    ensures Reaped(f, r, of)
  {
    hide OneReaped, Inv, Keep, ReapedFields;
    ReapMoreLists(f, z, m, r, of);
    ReapMoreFields(f, z, m, r, of);
  }

  /** The loop ends and removes exactly the zombie children behind the head, counting each once, and loses no slot. */
  lemma {:induction false} ReapMeets(f: Family, of: nat)
    requires Inv(f) && f.listed != [] && Alive(f, of)
    ensures Reaped(f, Reap(f, of), of) && NextZombie(Reap(f, of), of) == NULL
    decreases |f.listed|
  {
    hide Reaped, Delete, Keep, FirstZombie;
    if NextZombie(f, of) == NULL {
      ReapNothing(f, of);
    } else {
      ReleaseZombieFacts(f, of);
      var m := ReleaseZombie(f, NextZombie(f, of));
      ReapMeets(m, of);
      ReapOneMore(f, NextZombie(f, of), m, Reap(m, of), of);
    }
  }

  /** Who is left: everybody but the zombies among the children of `of` behind the head, in the old order. */
  lemma {:induction false} KeepIs(f: Family, ps: seq<nat>, of: nat)
    ensures forall p :: p in Keep(f, ps, of) <==> p in ps && !(p in f.parent && f.parent[p] == of && p in f.zombies)
    ensures (forall p :: p in ps ==> !(p in f.parent && f.parent[p] == of && p in f.zombies)) ==> Keep(f, ps, of) == ps
  {
    if ps != [] {
      KeepIs(f, ps[1..], of);
      assert ps == [ps[0]] + ps[1..];
    }
  }

  lemma ReapTakesZombieChildren(f: Family, of: nat)
    requires Inv(f) && f.listed != [] && Alive(f, of)
    ensures var r := Reap(f, of);
      && r.listed != [] && r.listed[0] == f.listed[0]
      && forall p :: p in f.listed[1..] ==>
           (p !in r.listed[1..] <==> p in f.parent && f.parent[p] == of && p in f.zombies)
  {
    hide Inv, Alive, Reap, Keep;
    ReapMeets(f, of);
    KeepIs(f, f.listed[1..], of);
    assert Reap(f, of).listed[1..] == Keep(f, f.listed[1..], of);
  }

  // ---------- sig_get ----------

  datatype Handler = Default | Ignored | Caught(address: nat)

  /** The current process with its signal sets; signal n is bit n - 1 of the source's words. */
  datatype Task = Task(family: Family, current: nat, pending: set<nat>, blocked: set<nat>, handlers: map<nat, Handler>)

  ghost predicate Ready(t: Task) {
    && Inv(t.family) && t.family.listed != [] && Alive(t.family, t.current)
    && forall n :: 1 <= n < NUM_SIGNALS ==> n in t.handlers
  }

  /** The scan takes a pending `n` off instead of returning it. */
  predicate Discards(t: Task, n: nat)
    requires n in t.handlers
  {
    if n == SIGCHLD then !t.handlers[n].Caught? else t.handlers[n] == Ignored
  }

  function Discard(t: Task, n: nat): Task
    requires Ready(t) && n in t.handlers
  {
    t.(pending := t.pending - {n},
       family := if n == SIGCHLD && t.handlers[n] == Ignored then Reap(t.family, t.current) else t.family)
  }

  lemma DiscardKeepsReady(t: Task, n: nat)
    requires Ready(t) && n in t.handlers
    ensures Ready(Discard(t, n))
  {
    if n == SIGCHLD && t.handlers[n] == Ignored {
      ReapKeepsAlive(t.family, t.current);
    }
  }

  lemma {:induction false} ReapKeepsAlive(f: Family, of: nat)
    requires Inv(f) && f.listed != [] && Alive(f, of)
    ensures var r := Reap(f, of);
      Inv(r) && r.listed != [] && Alive(r, of)
    decreases |f.listed|
  {
    if NextZombie(f, of) != NULL {
      ReleaseZombieFacts(f, of);
      hide Inv, Alive, OneReaped, Keep, NextZombie, ReleaseZombie;
      ReapKeepsAlive(ReleaseZombie(f, NextZombie(f, of)), of);
    }
  }

  function Scan(t: Task, n: nat): (Task, nat)
    requires Ready(t) && 1 <= n <= NUM_SIGNALS
    decreases NUM_SIGNALS - n
  {
    if n == NUM_SIGNALS then (t, 0)
    else if n !in t.pending then Scan(t, n + 1)
    else if !Discards(t, n) then (t, n)
    else
      DiscardKeepsReady(t, n);
      Scan(Discard(t, n), n + 1)
  }

  function SigGet(t: Task): (Task, nat)
    requires Ready(t)
  {
    if t.pending <= t.blocked then (t, 0) else Scan(t, 1)
  }

  /** A signal nobody wants to hear of: 17 (SIGCHLD) unless it is caught, any other if it is ignored. */
  ghost predicate Unheard(handlers: map<nat, Handler>, m: nat) {
    m in handlers && (handlers[m] == Ignored || (m == 17 && handlers[m] == Default))
  }

  /**
   From signal `n` on, `s` is the first pending signal that somebody wants to hear of, 0 if there is
   none below 32. Those before it are taken off, and passing an ignored SIGCHLD reaps.
   */
  ghost predicate FirstKept(t: Task, n: nat, r: Task, s: nat)
    requires Ready(t)
  {
    && r.current == t.current && r.blocked == t.blocked && r.handlers == t.handlers
    && (s != 0 ==> n <= s < 32 && s in t.pending && !Unheard(t.handlers, s))
    && var end := if s != 0 then s else 32;
       && (forall m :: n <= m < end && m in t.pending ==> Unheard(t.handlers, m))
       && r.pending == (set m | m in t.pending && !(n <= m < end))
       && r.family == (if n <= 17 < end && 17 in t.pending && t.handlers[17] == Ignored
                       then Reap(t.family, t.current) else t.family)
  }

  /**
   The scan returns the least pending signal that is not discarded, keeps it pending, and reaps iff it
   passes an ignored SIGCHLD.
   */
  lemma {:induction false} ScanFindsFirst(t: Task, n: nat)
    requires Ready(t) && 1 <= n <= NUM_SIGNALS
    ensures FirstKept(t, n, Scan(t, n).0, Scan(t, n).1)
    decreases NUM_SIGNALS - n
  {
    hide Inv, Alive, Reap;
    if n == NUM_SIGNALS || (n in t.pending && !Discards(t, n)) {
      assert t.pending == (set m | m in t.pending && !(n <= m < n));
    } else if n !in t.pending {
      ScanFindsFirst(t, n + 1);
      var s := Scan(t, n + 1).1;
      var end := if s != 0 then s else NUM_SIGNALS;
      assert (set m | m in t.pending && !(n <= m < end)) == (set m | m in t.pending && !(n + 1 <= m < end));
    } else {
      DiscardKeepsReady(t, n);
      ScanFindsFirst(Discard(t, n), n + 1);
      var s := Scan(Discard(t, n), n + 1).1;
      var end := if s != 0 then s else NUM_SIGNALS;
      assert (set m | m in t.pending && !(n <= m < end)) == (set m | m in t.pending - {n} && !(n + 1 <= m < end));
      forall m | n <= m < end && m in t.pending ensures Unheard(t.handlers, m) {
        if m != n { assert m in Discard(t, n).pending; }
      }
    }
  }

  lemma SigGetMeets(t: Task)
    requires Ready(t)
    ensures t.pending <= t.blocked ==> SigGet(t) == (t, 0)
    ensures !(t.pending <= t.blocked) ==> FirstKept(t, 1, SigGet(t).0, SigGet(t).1)
    ensures Ready(SigGet(t).0)
  {
    hide Inv, Alive, Reap;
    ScanFindsFirst(t, 1);
    ReapKeepsAlive(t.family, t.current);
  }
}
