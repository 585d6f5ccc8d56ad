/**
 The process list and the free list as the code relinks them
 (kernel/src/proc/proc.c:53-111), and sig_get on top (kernel/src/interrupt/signal.c).
 */
module ProcList {
  import opened Dll
  import opened Reaping

  /** The free list is linked forward only. */
  ghost predicate FreeChain(head: nat, next: Links, free: seq<nat>) {
    && head == At(free, 0)
    && forall i {:trigger next[free[i]]} {:trigger free[i] in next} :: 0 <= i < |free| ==>
         free[i] in next && next[free[i]] == At(free, i + 1)
  }

  ghost predicate Chains(head: nat, tail: nat, next: Links, prev: Links, freeHead: nat, listed: seq<nat>,
                         free: seq<nat>) {
    && Listed(head, next, prev, listed) && tail == At(listed, |listed| - 1)
    && FreeChain(freeHead, next, free) && NoDup(free) && NULL !in free
    && (forall p :: p in listed ==> p !in free)
  }

  /** The next fields after `p` is cut out (proc.c:92-102); the last process only loses its successor's link. */
  function CutNext(tail: nat, next: Links, prev: Links, p: nat): Links
    requires p in next && p in prev
  {
    if p == tail then next[prev[p] := NULL] else next[prev[p] := next[p]]
  }

  function CutPrev(tail: nat, next: Links, prev: Links, p: nat): Links
    requires p in next && p in prev
  {
    if p == tail then prev else prev[next[p] := prev[p]]
  }

  lemma CutKeepsListed(head: nat, next: Links, prev: Links, listed: seq<nat>, k: nat)
    requires Listed(head, next, prev, listed) && 0 < k < |listed|
    ensures var p, tail := listed[k], listed[|listed| - 1];
      && p in next && p in prev && p != NULL && prev[p] == listed[k - 1] && (p == tail <==> k == |listed| - 1)
      && (p != tail ==> next[p] == listed[k + 1] && next[p] in prev) && prev[p] in next
      && Listed(head, CutNext(tail, next, prev, p), CutPrev(tail, next, prev, p), Without(listed, k))
      && At(Without(listed, k), |listed| - 2) == (if p == tail then prev[p] else tail)
  {
    assert next[listed[k]] == At(listed, k + 1) && prev[listed[k]] == At(listed, k - 1);
    if k < |listed| - 1 {
      assert listed[k + 1] != NULL;
      UnlinkKeepsListed(head, next, prev, listed, k);
    } else {
      assert Without(listed, k) == listed[..k];
    }
  }

  lemma FreeElsewhere(freeHead: nat, next: Links, free: seq<nat>, a: nat, v: nat)
    requires FreeChain(freeHead, next, free) && a !in free
    ensures FreeChain(freeHead, next[a := v], free)
  {
  }

  lemma FreePushed(freeHead: nat, next: Links, free: seq<nat>, p: nat)
    requires FreeChain(freeHead, next, free) && p !in free
    ensures FreeChain(p, next[p := freeHead], [p] + free)
  {
  }

  lemma ListedElsewhere(head: nat, next: Links, prev: Links, xs: seq<nat>, p: nat, v: nat)
    requires Listed(head, next, prev, xs) && p !in xs
    ensures Listed(head, next[p := v], prev[p := NULL], xs)
  {
  }

  /** The lists after proc_release. */
  lemma ReleaseChains(head: nat, tail: nat, next: Links, prev: Links, freeHead: nat, listed: seq<nat>, free: seq<nat>,
                      p: nat)
    requires Chains(head, tail, next, prev, freeHead, listed, free) && listed != [] && p in listed[1..]
    ensures p in next && p in prev && p != NULL && head != tail && p in listed && (p == tail ==> prev[p] in next)
    ensures p != tail ==> prev[p] in next && next[p] in prev && next[p] != p
    ensures Chains(head, if p == tail then prev[p] else tail,
                   CutNext(tail, next, prev, p)[p := freeHead], CutPrev(tail, next, prev, p)[p := NULL],
                   p, Delete(listed, p), [p] + free)
  {
    hide Listed, FreeChain, Without, Delete, NoDup;
    var i :| 0 <= i < |listed[1..]| && listed[1..][i] == p;
    var k := i + 1;
    assert listed[k] == p;
    CutKeepsListed(head, next, prev, listed, k);
    ListEnds(head, next, prev, listed, k);
    DeleteIsWithout(listed, k);
    DeleteFacts(listed, p);
    FreeElsewhere(freeHead, next, free, prev[p], if p == tail then NULL else next[p]);
    FreePushed(freeHead, CutNext(tail, next, prev, p), free, p);
    ListedElsewhere(head, CutNext(tail, next, prev, p), CutPrev(tail, next, prev, p), Delete(listed, p), p, freeHead);
    AddedApart(free, p);
  }

  lemma ListEnds(head: nat, next: Links, prev: Links, listed: seq<nat>, k: nat)
    requires Listed(head, next, prev, listed) && 0 < k < |listed|
    ensures head != listed[|listed| - 1] && listed[k - 1] in listed && NoDup(listed)
    ensures k < |listed| - 1 ==> listed[k + 1] != listed[k]
  {
  }

  lemma AddedApart(free: seq<nat>, p: nat)
    requires NoDup(free) && p !in free
    ensures NoDup([p] + free)
  {
  }

  /** Releasing the only process empties the list. */
  lemma ReleaseOnlyOne(head: nat, tail: nat, next: Links, prev: Links, freeHead: nat, free: seq<nat>, p: nat)
    requires Chains(head, tail, next, prev, freeHead, [p], free)
    ensures head == tail == p && p in next && p in prev && Delete([p], p) == [] && p !in free
    ensures Chains(NULL, NULL, next[p := freeHead], prev[p := NULL], p, [], [p] + free)
  {
    assert [p][0] == p && p in [p];
    FreePushed(freeHead, next, free, p);
    AddedApart(free, p);
  }

  lemma ReleaseKeepsInv(f: Family, p: nat)
    requires Inv(f) && p in f.listed
    ensures Inv(Release(f, p)) && p !in f.free
  {
    hide Delete;
    DeleteFacts(f.listed, p);
    AddedApart(f.free, p);
  }

  class Processes {
    var next: Links
    var prev: Links
    var listHead: nat
    var listTail: nat
    var freeHead: nat
    var freeSize: nat
    var parent: map<nat, nat>
    var zombies: set<nat>
    var children: map<nat, int>
    var pending: set<nat>
    const current: nat
    const blocked: set<nat>
    const handlers: map<nat, Handler>
    ghost var listed: seq<nat>
    ghost var free: seq<nat>

    ghost function Abs(): Family
      reads this
    {
      Family(listed, free, parent, zombies, children)
    }

    ghost function AbsTask(): Task
      reads this
    {
      Task(Abs(), current, pending, blocked, handlers)
    }

    ghost predicate Valid()
      reads this
    {
      Chains(listHead, listTail, next, prev, freeHead, listed, free) && freeSize == |free| && Inv(Abs())
    }

    /** proc_get_next_zombley */
    method GetNextZombley(of: nat) returns (p: nat)
      requires Valid() && listed != []
      ensures p == NextZombie(Abs(), of)
    {
      ghost var i := 1;
      Walk();
      hide Chains, FirstZombie;
      var iter := next[listHead];
      while iter != NULL
        invariant 1 <= i <= |listed| && iter == At(listed, i)
        invariant FirstZombie(Abs(), listed[i..], of) == NextZombie(Abs(), of)
        decreases |listed| - i
      {
        FirstOfMore(Abs(), listed, i, of);
        if parent[iter] == of && iter in zombies {
          return iter;
        }
        iter := next[iter];
        i := i + 1;
      }
      assert listed[i..] == [];
      FirstOfNone(Abs(), of);
      return NULL;
    }

    lemma Walk()
      requires Valid()
      ensures listed != [] ==> listHead == listed[0] && listHead in next
      ensures forall i {:trigger listed[i]} :: 0 <= i < |listed| ==>
        && listed[i] != NULL && listed[i] in next && listed[i] in prev && next[listed[i]] == At(listed, i + 1)
        && listed[i] in parent && listed[i] in children
    {
    }

    /** Cuts `p` out of the process list (proc.c:92-102). */
    method CutOut(p: nat)
      requires p in next && p in prev
      requires listHead != listTail && prev[p] in next && (p != listTail ==> next[p] in prev && next[p] != p)
      modifies this`next, this`prev, this`listTail
      ensures next == CutNext(old(listTail), old(next), old(prev), p)
        && prev == CutPrev(old(listTail), old(next), old(prev), p)
      ensures listTail == old(if p == listTail then prev[p] else listTail)
    {
      if p == listTail {
        listTail := prev[listTail];
        next := next[listTail := NULL];
      } else {
        next := next[prev[p] := next[p]];
        prev := prev[next[p] := prev[p]];
      }
    }

    /** Clears the slot of `p` and puts it in front of the free list (proc.c:105-108). */
    method ToFree(p: nat)
      requires p in next && p in prev
      modifies this`next, this`prev, this`freeHead, this`freeSize, this`parent, this`zombies, this`children
      ensures next == old(next)[p := old(freeHead)] && prev == old(prev)[p := NULL]
      ensures freeHead == p && freeSize == old(freeSize) + 1
      ensures parent == old(parent)[p := NULL] && zombies == old(zombies) - {p} && children == old(children)[p := 0]
    {
      next, prev := next[p := NULL], prev[p := NULL];
      parent, zombies, children := parent[p := NULL], zombies - {p}, children[p := 0];
      next := next[p := freeHead];
      freeHead := p;
      freeSize := freeSize + 1;
    }

    /** proc_release; the head may only go as the last one. */
    method ProcRelease(p: nat)
      requires Valid() && p in listed && (p == listHead ==> |listed| == 1)
      modifies this`next, this`prev, this`listHead, this`listTail, this`freeHead, this`freeSize,
               this`parent, this`zombies, this`children, this`listed, this`free
      ensures Valid() && Abs() == Release(old(Abs()), p)
      ensures children == old(children)[p := 0]
    {
      hide Chains, Inv, CutNext, CutPrev, Delete;
      ReleaseKeepsInv(Abs(), p);
      HeadIsFirst();
      if p == listTail && listHead == listTail {
        assert listed == [p];
        ReleaseOnlyOne(listHead, listTail, next, prev, freeHead, free, p);
        listHead, listTail := NULL, NULL;
      } else {
        BehindHead(p);
        ReleaseChains(listHead, listTail, next, prev, freeHead, listed, free, p);
        CutFields(listTail, next, prev, p);
        CutOut(p);
      }
      ToFree(p);
      listed, free := Delete(listed, p), [p] + free;
    }

    lemma HeadIsFirst()
      requires Valid() && listed != []
      ensures listHead == listed[0] && listTail == listed[|listed| - 1] && (listHead == listTail <==> |listed| == 1)
    {
    }

    lemma BehindHead(p: nat)
      requires listed != [] && p in listed && p != listed[0]
      ensures p in listed[1..]
    {
      assert listed == [listed[0]] + listed[1..];
    }

    /** proc_release_zombley, but for the memory it frees. */
    method ReleaseZombley(p: nat)
      requires Valid() && p in listed && (p == listHead ==> |listed| == 1)
      requires parent[p] != NULL ==> parent[p] in children
      modifies this`next, this`prev, this`listHead, this`listTail, this`freeHead, this`freeSize,
               this`parent, this`zombies, this`children, this`listed, this`free
      ensures Abs() == ReleaseZombie(old(Abs()), p)
      ensures Chains(listHead, listTail, next, prev, freeHead, listed, free) && freeSize == |free|
    {
      hide Chains, Delete;
      var mother := parent[p];
      ProcRelease(p);
      if mother != NULL {
        children := children[mother := children[mother] - 1];
      }
    }

    /** The reaping loop (signal.c:29-32). */
    method ReapChildren()
      requires Valid() && listed != [] && Alive(Abs(), current)
      modifies this`next, this`prev, this`listHead, this`listTail, this`freeHead, this`freeSize,
               this`parent, this`zombies, this`children, this`listed, this`free
      ensures Valid() && Abs() == Reap(old(Abs()), current)
    {
      hide Chains, Inv, Alive, Delete, Keep, OneReaped, NextZombie, ReleaseZombie;
      ghost var target := Reap(Abs(), current);
      var p := GetNextZombley(current);
      while p != NULL
        invariant Valid() && listed != [] && Alive(Abs(), current) && p == NextZombie(Abs(), current)
        invariant Reap(Abs(), current) == target
        decreases |listed|
      {
        ReleaseZombieFacts(Abs(), current);
        ZombieBehindHead(Abs(), p, ReleaseZombie(Abs(), p), current);
        HeadIsFirst();
        ReleaseZombley(p);
        p := GetNextZombley(current);
      }
    }

    /** sig_get */
    method GetSignal() returns (signum: nat)
      requires Valid() && Ready(AbsTask())
      modifies this`next, this`prev, this`listHead, this`listTail, this`freeHead, this`freeSize,
               this`parent, this`zombies, this`children, this`pending, this`listed, this`free
      ensures Valid() && (AbsTask(), signum) == SigGet(old(AbsTask()))
    {
      hide Chains, Inv, Alive, Reap;
      if pending <= blocked {
        return 0;
      }
      ghost var target := Scan(AbsTask(), 1);
      signum := 1;
      while signum < NUM_SIGNALS
        invariant 1 <= signum <= NUM_SIGNALS && Valid() && Ready(AbsTask()) && Scan(AbsTask(), signum) == target
      {
        if signum in pending {
          var handler := handlers[signum];
          DiscardKeepsReady(AbsTask(), signum);
          if signum == SIGCHLD {
            if handler == Ignored {
              ReapChildren();
            } else if handler != Default {
              return signum;
            }
          } else if handler != Ignored {
            return signum;
          }
          pending := pending - {signum};
        }
        signum := signum + 1;
      }
      return 0;
    }
  }

  lemma FirstOfMore(f: Family, xs: seq<nat>, i: nat, of: nat)
    requires i < |xs|
    ensures FirstZombie(f, xs[i..], of) == if IsChild(f, xs[i], of) then xs[i] else FirstZombie(f, xs[i + 1..], of)
  {
    assert xs[i..][1..] == xs[i + 1..];
  }

  lemma FirstOfNone(f: Family, of: nat)
    ensures FirstZombie(f, [], of) == NULL
  {
  }

  lemma CutFields(tail: nat, next: Links, prev: Links, p: nat)
    requires p in next && p in prev
    ensures p in CutNext(tail, next, prev, p) && p in CutPrev(tail, next, prev, p)
  {
  }

  lemma ZombieBehindHead(f: Family, z: nat, r: Family, of: nat)
    requires Inv(f) && OneReaped(f, z, r, of)
    ensures z in f.listed && z != f.listed[0] && z in f.parent && f.parent[z] == of && of in f.children
  {
    FamilySplit(f);
  }
}
