/**
 kmalloc as the kernel runs it: free lists threaded through block headers in
 memory. Every method computes the corresponding function of module Kmalloc.
 */
module KernelHeap {
  import opened BuddyAddress
  import opened Buddy
  import opened Kmalloc
  import D = Dll
  import PA = PageAllocator
  import P = Pages

  lemma FreeIsSmall(h: Heap)
    requires ListsMatch(h)
    ensures forall l, a :: 0 <= l <= MAX_LEVEL && a in h.free[l] ==>
      a in h.blocks && h.blocks[a] == Block(l, false) && l < MAX_LEVEL
  {
  }

  /** Every free list is linked through the headers of its blocks. */
  ghost predicate ListsLinked(freelist: seq<nat>, next: D.Links, prev: D.Links, lists: seq<seq<nat>>) {
    && |freelist| == |lists| == MAX_LEVEL + 1
    && forall l :: 0 <= l <= MAX_LEVEL ==> D.Listed(freelist[l], next, prev, lists[l])
  }

  ghost predicate Apart(lists: seq<seq<nat>>) {
    forall k, l, a :: 0 <= k < |lists| && 0 <= l < |lists| && a in lists[k] && a in lists[l] ==> k == l
  }

  lemma ListsApart(h: Heap)
    requires ListsMatch(h)
    ensures Apart(h.free)
  {
    forall k, l, a | 0 <= k < |h.free| && 0 <= l < |h.free| && a in h.free[k] && a in h.free[l] ensures k == l {
      assert h.blocks[a] == Block(k, false);
    }
  }

  lemma UnlinkLinked(freelist: seq<nat>, next: D.Links, prev: D.Links, lists: seq<seq<nat>>, l: nat, b: nat)
    requires ListsLinked(freelist, next, prev, lists) && Apart(lists) && l <= MAX_LEVEL && b in lists[l]
    ensures b in next && b in prev && (b == freelist[l] <==> prev[b] == D.NULL)
    ensures ListsLinked(freelist[l := if b == freelist[l] then next[b] else freelist[l]],
                        D.UnlinkNext(next, prev, b), D.UnlinkPrev(next, prev, b), lists[l := D.Delete(lists[l], b)])
  {
    var k :| 0 <= k < |lists[l]| && lists[l][k] == b;
    assert next[b] == D.At(lists[l], k + 1) && prev[b] == D.At(lists[l], k - 1);
    D.DeleteIsWithout(lists[l], k);
    forall m | 0 <= m <= MAX_LEVEL && m != l
      ensures D.Listed(freelist[m], D.UnlinkNext(next, prev, b), D.UnlinkPrev(next, prev, b), lists[m])
    {
      D.UnlinkKeepsOther(freelist[l], next, prev, b, lists[l], freelist[m], lists[m]);
    }
    D.UnlinkKeepsListed(freelist[l], next, prev, lists[l], k);
  }

  lemma PushLinked(freelist: seq<nat>, next: D.Links, prev: D.Links, lists: seq<seq<nat>>, l: nat, b: nat)
    requires ListsLinked(freelist, next, prev, lists) && Apart(lists) && l <= MAX_LEVEL && b != D.NULL
    requires forall m :: 0 <= m <= MAX_LEVEL ==> b !in lists[m]
    ensures ListsLinked(freelist[l := b], next[b := freelist[l]], D.PushPrev(prev, freelist[l], b),
      lists[l := [b] + lists[l]])
  {
    D.PushKeepsListed(freelist[l], next, prev, lists[l], b);
    forall m | 0 <= m <= MAX_LEVEL && m != l
      ensures D.Listed(freelist[m], next[b := freelist[l]], D.PushPrev(prev, freelist[l], b), lists[m])
    {
      D.PushKeepsOther(freelist[l], next, prev, lists[l], b, freelist[m], lists[m]);
    }
  }

  /** Every block smaller than a page has its level in its header. */
  ghost predicate HeadersOk(level: map<nat, nat>, blocks: map<nat, Block>) {
    forall a :: a in blocks && blocks[a].level < MAX_LEVEL ==> a in level && level[a] == blocks[a].level
  }

  /** What buddy_dealloc may rely on when it starts. */
  lemma DeallocStart(h: Heap, a: nat, level: map<nat, nat>)
    requires Inv(h) && HeadersOk(level, h.blocks) && a in h.blocks && h.blocks[a].live && h.blocks[a].level < MAX_LEVEL
    ensures Apart(h.free) && |h.free| == MAX_LEVEL + 1
    ensures a in level && level[a] == h.blocks[a].level && a >= OFFSET
      && forall m :: 0 <= m <= MAX_LEVEL ==> a !in h.free[m]
    ensures var b := BuddyOf(a, level[a]);
      && b >= OFFSET && b != a
      && (b in h.free[level[a]] ==> b in level && level[b] == level[a])
      && (b !in h.free[level[a]] ==> Dealloc(h, a) == Push(h, a) && HeadersOk(level, Push(h, a).blocks))
  {
    hide Disjoint, Covers, NoFreePair, P.PagesInv;
    ListsApart(h);
    FreeIsSmall(h);
    BuddyPairs(a, h.blocks[a].level);
    NotListedWhileLive(h, a);
    var l: nat, b: nat := h.blocks[a].level, BuddyOf(a, h.blocks[a].level);
    if b in h.free[l] {
      assert b in h.blocks && h.blocks[b] == Block(l, false);
    }
    hide ListsMatch, Placed;
  }

  lemma NotListedWhileLive(h: Heap, a: nat)
    requires ListsMatch(h) && a in h.blocks && h.blocks[a].live
    ensures forall m :: 0 <= m <= MAX_LEVEL ==> a !in h.free[m]
  {
  }

  /** What one merging step of buddy_dealloc leaves to do. */
  lemma MergeStep(h: Heap, a: nat, level: map<nat, nat>)
    requires Inv(h) && Mergeable(h, a) && h.blocks[a].level < MAX_LEVEL - 1 && HeadersOk(level, h.blocks)
    ensures var lower := Min(a, BuddyOf(a, h.blocks[a].level)); var m := Merge(h, a);
      && Inv(m) && lower in m.blocks && m.blocks[lower] == Block(h.blocks[a].level + 1, true)
      && HeadersOk(level[lower := h.blocks[a].level + 1], m.blocks)
      && Dealloc(h, a) == Dealloc(m, lower)
      && m == Heap(Unlist(h, a), m.blocks, h.pages)
  {
    hide Inv, HeadersOk, D.Delete;
    MergeReady(h, a, level);
    MergeKeepsInv(h, a);
  }

  lemma MergeReady(h: Heap, a: nat, level: map<nat, nat>)
    requires Inv(h) && Mergeable(h, a) && h.blocks[a].level < MAX_LEVEL - 1 && HeadersOk(level, h.blocks)
    ensures |h.free| == MAX_LEVEL + 1 && BuddyOf(a, h.blocks[a].level) != a
    ensures var lower := Min(a, BuddyOf(a, h.blocks[a].level));
      HeadersOk(level[lower := h.blocks[a].level + 1], Merge(h, a).blocks)
  {
    hide Disjoint, Covers, NoFreePair, P.PagesInv, Unshared, Size, PageOf, Aligned, D.Delete;
    PairSpan(h, a);
  }

  /** What is left of buddy_dealloc when both halves of a page are free. */
  lemma ReturnStep(h: Heap, a: nat, level: map<nat, nat>)
    requires Inv(h) && Mergeable(h, a) && h.blocks[a].level == MAX_LEVEL - 1 && HeadersOk(level, h.blocks)
    ensures a >= OFFSET && PageOf(a) in h.pages.buddy && PageOf(a) in h.pages.usage
    ensures var r := ReturnPage(h, a); var ps := h.pages.(buddy := h.pages.buddy - {PageOf(a)});
      && HeadersOk(level, r.blocks) && P.PagesInv(ps)
      && Dealloc(h, a) == r && r == Heap(Unlist(h, a), r.blocks, P.Release(ps, PageOf(a)))
  {
    PairSpan(h, a);
    var ps := h.pages.(buddy := h.pages.buddy - {PageOf(a)});
    assert P.Unreserved(ps) == P.Unreserved(h.pages);
  }

  // ---------- the same for buddy_alloc ----------

  lemma LevelOfSize(level: nat)
    requires level <= MAX_LEVEL
    ensures Size(level) == BLOCKSIZES[level] && LevelFor(Size(level), 0) == level
  {
    SizeIsPow2(level);
    var r := LevelFor(Size(level), 0);
    if r < level { SizeGrows(r, level); }
    if r > level { SizeGrows(level, r - 1); }
  }

  lemma SizeGrows(low: nat, high: nat)
    requires low <= high <= MAX_LEVEL
    ensures Size(low) <= Size(high) && (low < high ==> Size(low) < Size(high))
  {
  }

  lemma PopStep(h: Heap, l: nat, level: map<nat, nat>)
    requires Inv(h) && l < MAX_LEVEL && h.free[l] != [] && HeadersOk(level, h.blocks)
    ensures var b := h.free[l][0]; var r := Pop(h, l);
      && b in h.free[l] && b != NULL && b in level && level[b] == l && Apart(h.free)
      && Alloc(h, l) == (r, b) && HeadersOk(level, r.blocks)
      && r == Heap(h.free[l := D.Delete(h.free[l], b)], h.blocks[b := Block(l, true)], h.pages)
  {
    hide Disjoint, Covers, NoFreePair, P.PagesInv;
    ListsApart(h);
    var b := h.free[l][0];
    assert b in h.free[l] && b in h.blocks;
    assert D.Delete(h.free[l], b) == h.free[l][1..];
  }

  lemma SplitStep(h: Heap, l: nat, hm: Heap, b: nat, level: map<nat, nat>)
    requires Inv(h) && l < MAX_LEVEL && h.free[l] == [] && (hm, b) == Alloc(h, l + 1) && HeadersOk(level, hm.blocks)
    ensures Inv(hm) && |hm.free| == MAX_LEVEL + 1 && hm.free[l] == [] && Apart(hm.free)
    ensures b == NULL ==> Alloc(h, l) == (hm, NULL)
    ensures b != NULL ==>
      && b in hm.blocks && BuddyOf(b, l) != NULL && (forall m :: 0 <= m <= MAX_LEVEL ==> BuddyOf(b, l) !in hm.free[m])
      && Alloc(h, l) == (Split(hm, b, l), b)
      && HeadersOk(level[b := l][BuddyOf(b, l) := l], Split(hm, b, l).blocks)
  {
    AllocMeetsSpec(h, l + 1);
    assert AllocSpec(h, l + 1, (hm, b));
    assert Alloc(h, l) == if b == NULL then (hm, b) else (Split(hm, b, l), b);
    hide Inv, Alloc, Exhausted, WholePages, HeadersOk;
    SplitReady(hm, b, l, level);
  }

  lemma SplitReady(hm: Heap, b: nat, l: nat, level: map<nat, nat>)
    requires Inv(hm) && l < MAX_LEVEL && HeadersOk(level, hm.blocks)
    requires b != NULL ==> b in Live(hm) && Live(hm)[b] == l + 1
    ensures |hm.free| == MAX_LEVEL + 1 && Apart(hm.free)
    ensures b != NULL ==>
      && b in hm.blocks && BuddyOf(b, l) != NULL && (forall m :: 0 <= m <= MAX_LEVEL ==> BuddyOf(b, l) !in hm.free[m])
      && HeadersOk(level[b := l][BuddyOf(b, l) := l], Split(hm, b, l).blocks)
  {
    hide P.PagesInv, Covers, NoFreePair;
    ListsApart(hm);
    if b != NULL {
      SplitDisjoint(hm, b, l);
      SplitPlaced(hm, b, l);
      NotListed(hm, BuddyOf(b, l));
      hide Disjoint, Placed, ListsMatch;
      assert BuddyOf(b, l) != NULL;
    }
  }

  lemma NotListed(h: Heap, b: nat)
    requires ListsMatch(h) && b !in h.blocks
    ensures forall m :: 0 <= m <= MAX_LEVEL ==> b !in h.free[m]
  {
  }

  lemma PageStep(h: Heap, level: map<nat, nat>, ps: P.PageState, p: int)
    requires Inv(h) && HeadersOk(level, h.blocks) && (ps, p) == P.Get(h.pages)
    ensures p < 0 ==> Alloc(h, MAX_LEVEL) == (h.(pages := ps), NULL)
    ensures p >= 0 ==>
      var b := PageBase(p);
      var ps' := ps.(buddy := ps.buddy + {p});
      var r := Heap(h.free, h.blocks[b := Block(MAX_LEVEL, true)], ps');
      && PageOf(b) == p && (forall m :: 0 <= m <= MAX_LEVEL ==> b !in h.free[m])
      && P.PagesInv(ps') && Alloc(h, MAX_LEVEL) == (r, b) && HeadersOk(level, r.blocks)
  {
    P.GetKeepsInv(h.pages);
    if p >= 0 {
      AdoptPagePages(h);
      AdoptPageKeepsInv(h);
      PageBaseFacts(p);
      NotListed(h, PageBase(p));
    }
    hide Disjoint, Covers, NoFreePair, Placed, ListsMatch, P.PagesInv;
  }

  lemma HeadsOf(freelist: seq<nat>, next: D.Links, prev: D.Links, lists: seq<seq<nat>>)
    requires ListsLinked(freelist, next, prev, lists)
    ensures |freelist| == |lists| == MAX_LEVEL + 1
    ensures forall l :: 0 <= l <= MAX_LEVEL ==>
      freelist[l] == D.At(lists[l], 0) && (freelist[l] == D.NULL <==> lists[l] == [])
  {
  }

  /** Clearing the links of an object on no list changes no list. */
  lemma FreshLinks(freelist: seq<nat>, next: D.Links, prev: D.Links, lists: seq<seq<nat>>, b: nat)
    requires ListsLinked(freelist, next, prev, lists) && forall m :: 0 <= m <= MAX_LEVEL ==> b !in lists[m]
    ensures ListsLinked(freelist, next[b := D.NULL], prev[b := D.NULL], lists)
  {
  }

  lemma OnlyEntry(freelist: seq<nat>, next: D.Links, prev: D.Links, lists: seq<seq<nat>>, l: nat, b: nat)
    requires ListsLinked(freelist, next, prev, lists) && Apart(lists) && l <= MAX_LEVEL && lists[l] == [] && b != D.NULL
    requires forall m :: 0 <= m <= MAX_LEVEL ==> b !in lists[m]
    ensures ListsLinked(freelist[l := b], next[b := D.NULL], prev[b := D.NULL], lists[l := [b]])
  {
    PushLinked(freelist, next, prev, lists, l, b);
  }

  /** The level of a request, and the block size of the next level (buddy.c:114-115,142). */
  method FindLevel(size: nat) returns (l: nat, twice: nat)
    requires size <= PAGE
    ensures l == LevelFor(size, 0) && l <= MAX_LEVEL
    ensures l < MAX_LEVEL ==> twice <= PAGE && LevelFor(twice, 0) == l + 1
  {
    l, twice := 0, 0;
    while BLOCKSIZES[l] < size
      invariant l <= MAX_LEVEL && LevelFor(size, l) == LevelFor(size, 0)
      decreases MAX_LEVEL - l
    {
      LevelOfSize(l);
      l := l + 1;
    }
    LevelOfSize(l);
    if l < MAX_LEVEL {
      LevelOfSize(l + 1);
      twice := BLOCKSIZES[l + 1];
    }
  }

  class KHeap {
    const pages: PA.Allocator
    var freelist: seq<nat>
    var level: map<nat, nat>
    var next: D.Links
    var prev: D.Links

    ghost var lists: seq<seq<nat>>
    ghost var blocks: map<nat, Block>

    ghost function Abs(): Heap
      reads this, pages
    {
      Heap(lists, blocks, pages.Abs())
    }

    /** Pages, links and headers agree with the abstract heap. */
    ghost predicate Valid()
      reads this, pages
    {
      pages.Valid() && Linked()
    }

    ghost predicate Linked()
      reads this
    {
      ListsLinked(freelist, next, prev, lists) && HeadersOk(level, blocks)
    }

    constructor (count: nat, kernelEnd: nat, hasAddr: nat -> bool)
      requires count <= PA.MAX_PAGES
      ensures Valid() && fresh(pages) && Boot(Abs())
    {
      pages := new PA.Allocator(count, kernelEnd, hasAddr);
      freelist := [0, 0, 0, 0, 0, 0, 0, 0];
      level, next, prev := map[], map[], map[];
      lists := [[], [], [], [], [], [], [], []];
      blocks := map[];
    }

    method RemoveFromFreelist(block: nat)
      requires Linked() && Apart(lists)
      requires block in level && level[block] <= MAX_LEVEL && block in lists[level[block]]
      modifies this`freelist, this`next, this`prev, this`lists
      ensures Linked() && lists == old(lists)[level[block] := D.Delete(old(lists)[level[block]], block)]
    {
      var l := level[block];
      UnlinkLinked(freelist, next, prev, lists, l, block);
      ghost var next', prev' := D.UnlinkNext(next, prev, block), D.UnlinkPrev(next, prev, block);
      if next[block] != D.NULL {
        prev := prev[next[block] := prev[block]];
      }
      if prev[block] != D.NULL {
        next := next[prev[block] := next[block]];
      }
      if block == freelist[l] {
        freelist := freelist[l := next[block]];
      }
      lists := lists[l := D.Delete(lists[l], block)];
    }

    /** Walks a free list for the buddy (buddy.c:54-61). */
    method FindOnFreelist(l: nat, buddy: nat) returns (p: nat)
      requires Linked() && l <= MAX_LEVEL && buddy != D.NULL
      ensures p == if buddy in lists[l] then buddy else D.NULL
    {
      ghost var i := 0;
      p := freelist[l];
      while p != D.NULL
        invariant 0 <= i <= |lists[l]| && p == D.At(lists[l], i) && buddy !in lists[l][..i]
        decreases |lists[l]| - i
      {
        if p == buddy {
          return;
        }
        p := next[p];
        i := i + 1;
      }
    }

    method Prepend(l: nat, block: nat)
      requires Linked() && Apart(lists) && l <= MAX_LEVEL && block != D.NULL
      requires forall m :: 0 <= m <= MAX_LEVEL ==> block !in lists[m]
      modifies this`freelist, this`next, this`prev, this`lists
      ensures Linked() && lists == old(lists)[l := [block] + old(lists)[l]]
    {
      PushLinked(freelist, next, prev, lists, l, block);
      if freelist[l] == D.NULL {
        freelist := freelist[l := block];
        next, prev := next[block := D.NULL], prev[block := D.NULL];
      } else {
        next := next[block := freelist[l]];
        prev := prev[block := D.NULL];
        prev := prev[freelist[l] := block];
        freelist := freelist[l := block];
      }
      lists := lists[l := [block] + lists[l]];
    }

    /** The page of `addr` belongs to a buddy block (alloc.c:36-43). */
    method Kfree(addr: nat)
      requires Valid() && addr >= OFFSET && PageOf(addr) in pages.usageCount
      requires PageOf(addr) in pages.buddyFlag ==> Settled(Abs()) && HeldBlock(Abs(), addr)
      modifies this, pages
      ensures Valid()
      ensures PageOf(addr) in old(pages.buddyFlag) ==>
        && old(HeldBlock(Abs(), addr) && blocks[addr - HEADER].level < MAX_LEVEL && Inv(Abs()))
        && Abs() == Dealloc(old(Abs()), addr - HEADER)
      ensures PageOf(addr) !in old(pages.buddyFlag) ==>
        && Abs() == old(Abs()).(pages := P.Release(old(Abs()).pages, PageOf(addr)))
        && Headers(old(level), old(next), old(prev), old(freelist))
      decreases if PageOf(addr) in pages.buddyFlag then 20 else 0
    {
      if PageOf(addr) in pages.buddyFlag {
        assert Live(Abs())[addr - HEADER] < MAX_LEVEL;
        BuddyFree(addr);
      } else {
        pages.ReleasePage(PageOf(addr));
      }
    }

    ghost predicate Headers(level0: map<nat, nat>, next0: D.Links, prev0: D.Links, freelist0: seq<nat>)
      reads this
    {
      level == level0 && next == next0 && prev == prev0 && freelist == freelist0
    }

    method BuddyFree(addr: nat)
      requires Valid() && Inv(Abs()) && HeldBlock(Abs(), addr) && blocks[addr - HEADER].level < MAX_LEVEL
      modifies this, pages
      ensures Valid() && Abs() == Dealloc(old(Abs()), addr - HEADER)
      decreases 19
    {
      BuddyDealloc(addr - HEADER);
    }

    method BuddyDealloc(block: nat)
      requires Valid() && Inv(Abs()) && block in blocks && blocks[block].live && blocks[block].level < MAX_LEVEL
      modifies this, pages
      ensures Valid() && Abs() == Dealloc(old(Abs()), block)
      decreases 10 - blocks[block].level
    {
      hide Inv, Dealloc, ListsLinked, HeadersOk, Apart, Merge, ReturnPage, P.PagesInv, P.Release;
      ghost var h := Abs();
      DeallocStart(h, block, level);
      var l := level[block];
      var buddy := BuddyOf(block, l);
      var p := FindOnFreelist(l, buddy);
      if p == buddy {
        RemoveFromFreelist(buddy);
        if l < MAX_LEVEL - 1 {
          MergeStep(h, block, level);
          blocks := Merge(h, block).blocks;
          if block > buddy {
            level := level[buddy := level[buddy] + 1];
            BuddyDealloc(buddy);
          } else {
            level := level[block := level[block] + 1];
            BuddyDealloc(block);
          }
        }
        if l == MAX_LEVEL - 1 {
          ReturnStep(h, block, level);
          pages.buddyFlag := pages.buddyFlag - {PageOf(block)};
          blocks := ReturnPage(h, block).blocks;
          Kfree(block);
        }
      } else {
        Prepend(l, block);
        blocks := Push(h, block).blocks;
      }
    }

    method Kmalloc(size: nat) returns (addr: nat)
      requires Valid() && size < WORD && (BuddyRoute(size) ==> Inv(Abs()))
      modifies this, pages
      ensures Valid() && (Abs(), addr) == Malloc(old(Abs()), size)
      ensures !BuddyRoute(size) ==> Headers(old(level), old(next), old(prev), old(freelist))
      decreases if BuddyRoute(size) then 20 else 0
    {
      hide Inv, Alloc, LevelFor, P.PagesInv, Linked;
      var maxSize := BLOCKSIZES[MAX_LEVEL - 1];
      if (size + HEADER) % WORD <= maxSize {
        addr := BuddyMalloc((size + HEADER) % WORD);
        return;
      }
      if size > PAGE {
        return NULL;
      }
      var page := pages.GetFree();
      return if page != P.NONE then PageBase(page) else NULL;
    }

    method BuddyMalloc(size: nat) returns (addr: nat)
      requires Valid() && Inv(Abs()) && size <= Size(MAX_LEVEL - 1)
      modifies this, pages
      ensures Valid()
      ensures var (h1, b) := Alloc(old(Abs()), LevelFor(size, 0));
        Abs() == h1 && addr == if b == NULL then NULL else b + HEADER
      decreases 19
    {
      var block := BuddyAlloc(size);
      addr := if block != NULL then block + HEADER else NULL;
    }

    /** buddy.c:118-133. */
    method BuddyAllocPage() returns (block: nat)
      requires Valid() && Inv(Abs())
      modifies this, pages
      ensures Valid() && (Abs(), block) == Alloc(old(Abs()), MAX_LEVEL)
      decreases 1
    {
      hide Inv, Alloc, ListsLinked, HeadersOk, P.PagesInv, P.Get;
      PageStep(Abs(), level, P.Get(pages.Abs()).0, P.Get(pages.Abs()).1);
      block := Kmalloc(PAGE);
      if block != NULL {
        FreshLinks(freelist, next, prev, lists, block);
        pages.buddyFlag := pages.buddyFlag + {PageOf(block)};
        prev, next := prev[block := D.NULL], next[block := D.NULL];
        blocks := blocks[block := Block(MAX_LEVEL, true)];
      }
    }

    /** buddy.c:146-151. */
    method SplitBlock(block: nat, l: nat)
      requires Linked() && Apart(lists) && l < MAX_LEVEL && lists[l] == [] && block in blocks
        && BuddyOf(block, l) != NULL
      requires forall m :: 0 <= m <= MAX_LEVEL ==> BuddyOf(block, l) !in lists[m]
      requires HeadersOk(level[block := l][BuddyOf(block, l) := l], Split(Abs(), block, l).blocks)
      modifies this
      ensures Linked() && Abs() == Split(old(Abs()), block, l)
    {
      ghost var h := Abs();
      level := level[block := l];
      var buddy := BuddyOf(block, level[block]);
      OnlyEntry(freelist, next, prev, lists, l, buddy);
      level := level[buddy := l];
      prev, next := prev[buddy := D.NULL], next[buddy := D.NULL];
      freelist := freelist[l := buddy];
      lists := lists[l := [buddy]];
      blocks := Split(h, block, l).blocks;
    }

    method BuddyAlloc(size: nat) returns (block: nat)
      requires Valid() && Inv(Abs()) && size <= PAGE
      modifies this, pages
      ensures Valid() && (Abs(), block) == Alloc(old(Abs()), LevelFor(size, 0))
      decreases 10 - LevelFor(size, 0)
    {
      hide Inv, Alloc, ListsLinked, HeadersOk, Apart, P.PagesInv, Split, LevelFor;
      ghost var h := Abs();
      var l, twice := FindLevel(size);
      HeadsOf(freelist, next, prev, lists);
      if l == MAX_LEVEL {
        block := BuddyAllocPage();
        return;
      }
      if freelist[l] != D.NULL {
        PopStep(h, l, level);
        block := freelist[l];
        RemoveFromFreelist(block);
        blocks := blocks[block := Block(l, true)];
      } else {
        block := BuddyAlloc(twice);
        SplitStep(h, l, Abs(), block, level);
        if block != NULL {
          SplitBlock(block, l);
        }
      }
    }
  }
}
