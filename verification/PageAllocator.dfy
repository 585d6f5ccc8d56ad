/** The page table entries and the statistics page.c keeps, with the free ring as pointers. */
module PageAllocator {
  import opened Dll
  import opened Pages

  const KERNEL_PHYSICAL_BASE: nat := 0x100000
  const KERNEL_STACK_PAGE: nat := 0xF000
  const PAGE_SIZE: nat := 4096
  /** Physical memory is capped to the kernel's one gigabyte window (bios.c:114-119). */
  const MAX_PAGES: nat := 0x40000

  function Succ(xs: seq<nat>, i: nat): nat
    requires i < |xs|
  {
    if i + 1 < |xs| then xs[i + 1] else xs[0]
  }

  function Pred(xs: seq<nat>, i: nat): nat
    requires i < |xs|
  {
    if i > 0 then xs[i - 1] else xs[|xs| - 1]
  }

  /** `next` and `prev` close the pages `xs` into a circle. */
  ghost predicate Circular(next: map<nat, nat>, prev: map<nat, nat>, xs: seq<nat>) {
    && (forall i {:trigger next[xs[i]]} {:trigger xs[i] in next} :: 0 <= i < |xs| ==>
          xs[i] in next && next[xs[i]] == Succ(xs, i))
    && (forall i {:trigger prev[xs[i]]} {:trigger xs[i] in prev} :: 0 <= i < |xs| ==>
          xs[i] in prev && prev[xs[i]] == Pred(xs, i))
  }

  lemma AppendKeepsCircular(next: map<nat, nat>, prev: map<nat, nat>, xs: seq<nat>, p: nat)
    requires Circular(next, prev, xs) && NoDup(xs) && xs != [] && p !in xs
    ensures var h := xs[0]; var t := prev[h];
      && t == xs[|xs| - 1]
      && Circular(next[p := h][t := p], prev[p := t][h := p], xs + [p])
  {
    assert prev[xs[0]] == Pred(xs, 0);
  }

  lemma RotateKeepsCircular(next: map<nat, nat>, prev: map<nat, nat>, xs: seq<nat>, p: nat)
    requires Circular(next, prev, xs + [p])
    ensures Circular(next, prev, [p] + xs)
  {
    var ys, zs := xs + [p], [p] + xs;
    forall i | 0 <= i < |zs|
      ensures zs[i] in next && next[zs[i]] == Succ(zs, i) && zs[i] in prev && prev[zs[i]] == Pred(zs, i)
    {
      var j := if i == 0 then |xs| else i - 1;
      assert ys[j] == zs[i];
      assert next[ys[j]] == Succ(ys, j) && prev[ys[j]] == Pred(ys, j);
    }
  }

  /** Taking out position k: its neighbours now point at each other. */
  lemma DropKeepsCircular(next: map<nat, nat>, prev: map<nat, nat>, xs: seq<nat>, k: nat)
    requires Circular(next, prev, xs) && NoDup(xs) && k < |xs|
    ensures var p := xs[k];
      && p in prev && prev[p] == Pred(xs, k) && p in next && next[p] == Succ(xs, k)
      && prev[p] in next && next[p] in prev
      && Circular(next[prev[p] := next[p]], prev[next[p] := prev[p]], Without(xs, k))
  {
    var p, ys := xs[k], Without(xs, k);
    assert next[p] == Succ(xs, k) && prev[p] == Pred(xs, k);
    var n, q := next[p], prev[p];
    forall i | 0 <= i < |ys|
      ensures ys[i] in next[q := n] && next[q := n][ys[i]] == Succ(ys, i)
      ensures ys[i] in prev[n := q] && prev[n := q][ys[i]] == Pred(ys, i)
    {
      var j := if i < k then i else i + 1;
      assert ys[i] == xs[j];
      assert next[xs[j]] == Succ(xs, j) && prev[xs[j]] == Pred(xs, j);
    }
  }

  lemma DeleteFirst(xs: seq<nat>)
    ensures xs != [] ==> Delete(xs, xs[0]) == xs[1..]
  {
  }

  lemma RingApart(s: PageState)
    requires PagesInv(s)
    ensures NoDup(s.ring)
  {
  }

  /** Usage counts after the page table is cleared. */
  function Zeroed(n: nat): (m: map<nat, nat>)
    ensures forall p :: p in m <==> 0 <= p < n
    ensures forall p :: p in m ==> m[p] == 0
  {
    if n == 0 then map[] else Zeroed(n - 1)[n - 1 := 0]
  }

  /** The pages page_init reserves (page.c:219-236). */
  ghost predicate BootReserved(p: nat, kernelEnd: nat, hasAddr: nat -> bool) {
    || KERNEL_PHYSICAL_BASE <= p * PAGE_SIZE < kernelEnd
    || p * PAGE_SIZE == KERNEL_STACK_PAGE
    || !hasAddr(p * PAGE_SIZE)
  }

  /** The first `n` pages are sorted into reserved pages and, in ascending order, free ones. */
  ghost predicate Booted(ring: seq<nat>, reserved: set<nat>, n: nat, kernelEnd: nat, hasAddr: nat -> bool) {
    && (forall p :: p in reserved <==> 0 <= p < n && BootReserved(p, kernelEnd, hasAddr))
    && (forall p :: p in ring <==> 0 <= p < n && !BootReserved(p, kernelEnd, hasAddr))
    && (forall i, j :: 0 <= i < j < |ring| ==> ring[i] < ring[j])
  }

  lemma NothingBooted(kernelEnd: nat, hasAddr: nat -> bool)
    ensures Booted([], {}, 0, kernelEnd, hasAddr) && Circular(map[], map[], [])
  {
  }

  lemma BootOnePage(ring: seq<nat>, reserved: set<nat>, n: nat, kernelEnd: nat, hasAddr: nat -> bool)
    requires Booted(ring, reserved, n, kernelEnd, hasAddr)
    ensures n !in ring && NoDup(ring)
    ensures BootReserved(n, kernelEnd, hasAddr) ==> Booted(ring, reserved + {n}, n + 1, kernelEnd, hasAddr)
    ensures !BootReserved(n, kernelEnd, hasAddr) ==> Booted(ring + [n], reserved, n + 1, kernelEnd, hasAddr)
  {
    assert forall i :: 0 <= i < |ring| ==> ring[i] in ring;
  }

  /** Byte `b` of physical memory lies in page `p`. */
  ghost predicate InPage(b: nat, p: nat) {
    p * 4096 <= b < p * 4096 + 4096
  }

  /**
   The pages free at boot are those that are memory, hold no byte of the kernel, which
   starts at one megabyte, and are not the page of its stack at 0xF000.
   */
  lemma FreeAtBootIff(ring: seq<nat>, reserved: set<nat>, n: nat, kernelEnd: nat, hasAddr: nat -> bool, p: nat)
    requires Booted(ring, reserved, n, kernelEnd, hasAddr)
    ensures p in ring <==>
      p < n && hasAddr(p * 4096) && !InPage(0xF000, p) && forall b :: 0x100000 <= b < kernelEnd ==> !InPage(b, p)
  {
    if p < n && 0x100000 <= p * 4096 < kernelEnd {
      assert InPage(p * 4096, p);
    }
    forall b | 0x100000 <= b < kernelEnd && !(0x100000 <= p * 4096 < kernelEnd) ensures !InPage(b, p) {
    }
  }

  /** The state page_init leaves behind meets the allocator's invariant. */
  lemma BootKeepsInv(s: PageState, kernelEnd: nat, hasAddr: nat -> bool)
    requires Booted(s.ring, s.reserved, s.count, kernelEnd, hasAddr)
    requires s.usage == Zeroed(s.count) && s.buddy == {} && s.total == |s.ring|
    ensures PagesInv(s)
  {
    NoDupSize(s.ring);
    assert Elements(s.ring) == Unreserved(s);
  }

  class Allocator {
    const numPages: nat
    var head: int
    var nextFree: map<nat, nat>
    var prevFree: map<nat, nat>
    var usageCount: map<nat, nat>
    var reservedFlag: set<nat>
    var buddyFlag: set<nat>
    var withInode: set<nat>
    var numFreePages: nat
    var minFreePages: int
    var totalMemPages: nat
    var pagesReclaimed: int

    ghost var ring: seq<nat>

    ghost function Abs(): PageState
      reads this
    {
      PageState(numPages, reservedFlag, ring, usageCount, buddyFlag, withInode,
                minFreePages, pagesReclaimed, totalMemPages)
    }

    ghost predicate Valid()
      reads this
    {
      && PagesInv(Abs())
      && RingOk()
    }

    ghost predicate RingOk()
      reads this
    {
      && numFreePages == |ring|
      && head == (if ring == [] then NONE else ring[0])
      && Circular(nextFree, prevFree, ring)
    }

    constructor (count: nat, kernelEnd: nat, hasAddr: nat -> bool)
      requires count <= MAX_PAGES
      ensures Valid()
      ensures numPages == count && usageCount == Zeroed(count) && buddyFlag == {} && withInode == {}
      ensures Booted(ring, reservedFlag, count, kernelEnd, hasAddr)
      ensures totalMemPages == numFreePages && minFreePages == totalMemPages * FREE_PAGES_RATIO / 100
    {
      hide Circular, Booted, NoDup;
      NothingBooted(kernelEnd, hasAddr);
      numPages := count;
      head := NONE;
      nextFree, prevFree := map[], map[];
      usageCount := Zeroed(count);
      reservedFlag, buddyFlag, withInode := {}, {}, {};
      numFreePages, pagesReclaimed := 0, 0;
      ring := [];
      new;
      var n := 0;
      while n < count
        invariant n <= count
        invariant RingOk()
        invariant Booted(ring, reservedFlag, n, kernelEnd, hasAddr)
        invariant usageCount == Zeroed(count) && buddyFlag == {} && withInode == {}
      {
        BootOnePage(ring, reservedFlag, n, kernelEnd, hasAddr);
        var addr := n * PAGE_SIZE;
        if KERNEL_PHYSICAL_BASE <= addr < kernelEnd {
          reservedFlag := reservedFlag + {n};
        } else if addr == KERNEL_STACK_PAGE {
          reservedFlag := reservedFlag + {n};
        } else if !hasAddr(addr) {
          reservedFlag := reservedFlag + {n};
        } else {
          InsertIntoFreeList(n);
        }
        n := n + 1;
      }
      totalMemPages := numFreePages;
      minFreePages := totalMemPages * FREE_PAGES_RATIO / 100;
      BootKeepsInv(Abs(), kernelEnd, hasAddr);
    }

    /** Links page `p` in at the tail of the ring, that is, just before the head (page.c:44-57). */
    method InsertIntoFreeList(p: nat)
      requires RingOk() && NoDup(ring) && p !in ring
      modifies this`head, this`nextFree, this`prevFree, this`numFreePages, this`ring
      ensures RingOk() && ring == old(ring) + [p] && NoDup(ring)
    {
      if head == NONE {
        prevFree := prevFree[p := p];
        nextFree := nextFree[p := p];
        head := p;
      } else {
        AppendKeepsCircular(nextFree, prevFree, ring, p);
        var h: nat := head;
        nextFree := nextFree[p := h];
        prevFree := prevFree[p := prevFree[h]];
        nextFree := nextFree[prevFree[h] := p];
        prevFree := prevFree[h := p];
      }
      numFreePages := numFreePages + 1;
      ring := ring + [p];
    }

    /** Unlinks page `page`, if there is any (page.c:59-76). */
    method RemoveFromFreeList(page: nat)
      requires RingOk() && NoDup(ring) && (page in ring || ring == [])
      modifies this`head, this`nextFree, this`prevFree, this`numFreePages, this`ring
      ensures RingOk() && ring == Delete(old(ring), page)
    {
      hide Delete;
      if numFreePages == 0 {
        DeleteAbsent(ring, page);
        return;
      }
      ghost var k :| 0 <= k < |ring| && ring[k] == page;
      DropKeepsCircular(nextFree, prevFree, ring, k);
      DeleteIsWithout(ring, k);
      nextFree := nextFree[prevFree[page] := nextFree[page]];
      prevFree := prevFree[nextFree[page] := prevFree[page]];
      numFreePages := numFreePages - 1;
      if page == head {
        head := nextFree[page];
      }
      if numFreePages == 0 {
        head := NONE;
      }
      ring := Without(ring, k);
    }

    method GetFree() returns (page: int)
      requires Valid()
      modifies this
      ensures Valid()
      ensures (Abs(), page) == Get(old(Abs()))
    {
      hide Circular, Delete, NoDup, PagesInv;
      DeleteFirst(ring);
      GetKeepsInv(Abs());
      RingApart(Abs());
      if numFreePages <= minFreePages {
        if numFreePages == 0 {
          // sleeping for a page is outside this model: nobody releases one meanwhile
          if numFreePages == 0 && pagesReclaimed == 0 {
            return NONE;
          }
        }
        minFreePages := minFreePages - NUM_BUFFER_RECLAIM;
        minFreePages := if minFreePages < 0 then 0 else minFreePages;
      } else {
        if minFreePages == 0 {
          if numFreePages > NUM_BUFFER_RECLAIM {
            minFreePages := totalMemPages * FREE_PAGES_RATIO / 100;
          }
        }
      }
      page := head;
      if page == NONE {
        return;
      }
      RemoveFromFreeList(page);
      usageCount := usageCount[page := 1];
      withInode := withInode - {page};
      assert Abs() == Get(old(Abs())).0;
    }

    method ReleasePage(p: nat)
      requires Valid() && p in usageCount
      modifies this
      ensures Valid()
      ensures Abs() == Release(old(Abs()), p)
    {
      hide Circular, NoDup, PagesInv;
      ReleaseKeepsInv(Abs(), p);
      UsedIsNotFree(Abs(), p);
      if usageCount[p] == 0 {
        return;
      }
      usageCount := usageCount[p := usageCount[p] - 1];
      if usageCount[p] > 0 {
        return;
      }
      ghost var before := ring;
      InsertIntoFreeList(p);
      buddyFlag := buddyFlag - {p};
      if p !in withInode {
        RotateKeepsCircular(nextFree, prevFree, before, p);
        head := p;
        ring := [p] + before;
      }
      assert Abs() == Release(old(Abs()), p);
    }
  }
}
