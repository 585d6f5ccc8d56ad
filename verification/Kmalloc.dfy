/**
 Allocation and release over the whole stack: buddy_alloc, buddy_dealloc, kmalloc
 and kfree (kernel/src/mem/buddy.c:49-156, kernel/src/mem/alloc.c).
 */
module Kmalloc {
  import opened BuddyAddress
  import opened Buddy
  import D = Dll
  import P = Pages

  /** sizeof(buddy_head_t) on i386. */
  const HEADER: nat := 12
  const WORD: nat := 0x1_0000_0000
  const NULL: nat := D.NULL

  /** buddy_alloc: a held block of `level`, or NULL. */
  function Alloc(h: Heap, level: nat): (r: (Heap, nat))
    requires |h.free| == MAX_LEVEL + 1 && level <= MAX_LEVEL
    ensures |r.0.free| == MAX_LEVEL + 1
    decreases MAX_LEVEL - level
  {
    if level == MAX_LEVEL then
      var (ps, p) := P.Get(h.pages);
      if p < 0 then (h.(pages := ps), NULL) else (AdoptPage(h, ps, p), PageBase(p))
    else if h.free[level] != [] then
      (Pop(h, level), h.free[level][0])
    else
      var (h1, b) := Alloc(h, level + 1);
      if b == NULL then (h1, NULL) else (Split(h1, b, level), b)
  }

  /** The blocks callers hold, with their levels. */
  ghost function Live(h: Heap): map<nat, nat> {
    map a | a in h.blocks && h.blocks[a].live :: h.blocks[a].level
  }

  /** The pages handed out whole. */
  ghost function WholePages(h: Heap): set<nat> {
    set p | p in h.pages.usage && h.pages.usage[p] > 0 && p !in h.pages.buddy
  }

  /** No free block of `level` or more and no free page: nothing can serve the request. */
  predicate Exhausted(h: Heap, level: nat)
    requires |h.free| == MAX_LEVEL + 1 && level <= MAX_LEVEL
  {
    h.pages.ring == [] && forall l :: level <= l < MAX_LEVEL ==> h.free[l] == []
  }

  /** `h1` is `h` with one more held block, `b` of `level`, and the shorter free lists untouched. */
  ghost predicate Served(h: Heap, level: nat, h1: Heap, b: nat) {
    && |h.free| == |h1.free| == MAX_LEVEL + 1
    && b !in Live(h) && b in h1.blocks && Live(h1) == Live(h)[b := level]
    && WholePages(h1) == WholePages(h)
    && forall l :: 0 <= l < level && l <= MAX_LEVEL ==> h1.free[l] == h.free[l]
  }

  lemma PopServes(h: Heap, level: nat)
    requires Inv(h) && level < MAX_LEVEL && h.free[level] != []
    ensures Served(h, level, Pop(h, level), h.free[level][0])
  {
    hide Placed, Covers, Disjoint, NoFreePair, Unshared, P.PagesInv, D.NoDup;
    var b := h.free[level][0];
    assert b in h.free[level] && h.blocks[b] == Block(level, false);
    hide ListsMatch;
    assert Live(Pop(h, level)) == Live(h)[b := level];
  }

  lemma AdoptServes(h: Heap, ps: P.PageState, p: nat)
    requires |h.free| == MAX_LEVEL + 1 && P.PagesInv(h.pages) && h.pages.ring != [] && (ps, p) == P.Get(h.pages)
    requires PageBase(p) !in h.blocks
    ensures Served(h, MAX_LEVEL, AdoptPage(h, ps, p), PageBase(p))
  {
    assert p in h.pages.ring;
    var h1 := AdoptPage(h, ps, p);
    assert Live(h1) == Live(h)[PageBase(p) := MAX_LEVEL];
    assert WholePages(h1) == WholePages(h);
  }

  lemma SplitServes(h: Heap, level: nat, hm: Heap, b: nat)
    requires level < MAX_LEVEL && Served(h, level + 1, hm, b)
    requires BuddyOf(b, level) !in hm.blocks
    ensures Served(h, level, Split(hm, b, level), b)
  {
    var h1 := Split(hm, b, level);
    assert Live(h1) == Live(hm)[b := level];
    assert WholePages(h1) == WholePages(hm);
  }

  /** What buddy_alloc promises about the result `r` of asking `h` for a block of `level`. */
  ghost predicate AllocSpec(h: Heap, level: nat, r: (Heap, nat))
    requires |h.free| == MAX_LEVEL + 1 && level <= MAX_LEVEL
  {
    && Inv(r.0)
    && (r.1 == NULL <==> Exhausted(h, level))
    && (r.1 == NULL ==> r.0 == h.(pages := h.pages.(minFree := r.0.pages.minFree)))
    && (r.1 != NULL ==> Served(h, level, r.0, r.1))
  }

  lemma AllocPage(h: Heap)
    requires Inv(h)
    ensures AllocSpec(h, MAX_LEVEL, Alloc(h, MAX_LEVEL))
  {
    P.GetKeepsInv(h.pages);
    if h.pages.ring != [] {
      AdoptPageKeepsInv(h);
      AdoptServes(h, P.Get(h.pages).0, P.Get(h.pages).1);
    }
  }

  lemma AllocPop(h: Heap, level: nat)
    requires Inv(h) && level < MAX_LEVEL && h.free[level] != []
    ensures AllocSpec(h, level, Alloc(h, level))
  {
    PopKeepsInv(h, level);
    PopServes(h, level);
    assert h.free[level][0] in h.free[level];
  }

  lemma AllocSplit(h: Heap, level: nat)
    requires Inv(h) && level < MAX_LEVEL && h.free[level] == []
    requires AllocSpec(h, level + 1, Alloc(h, level + 1))
    ensures AllocSpec(h, level, Alloc(h, level))
  {
    var (hm, b) := Alloc(h, level + 1);
    if b != NULL {
      assert Live(hm)[b] == level + 1 && hm.free[level] == [];
      SplitKeepsInv(hm, b, level);
      SplitDisjoint(hm, b, level);
      SplitServes(h, level, hm, b);
    }
  }

  /**
   A successful allocation adds exactly one held block and disturbs no shorter
   free list, so the list a split overwrites was empty; a failed one changes
   nothing but the low-memory threshold, and happens iff nothing can serve it.
   */
  lemma {:induction false} AllocMeetsSpec(h: Heap, level: nat)
    requires Inv(h) && level <= MAX_LEVEL
    ensures AllocSpec(h, level, Alloc(h, level))
    decreases MAX_LEVEL - level
  {
    if level == MAX_LEVEL {
      AllocPage(h);
    } else if h.free[level] != [] {
      AllocPop(h, level);
    } else {
      AllocMeetsSpec(h, level + 1);
      AllocSplit(h, level);
    }
  }

  /** buddy_dealloc: a held block climbs as long as its buddy is free. */
  ghost function Dealloc(h: Heap, a: nat): (r: Heap)
    requires Inv(h) && a in h.blocks && h.blocks[a].live && h.blocks[a].level < MAX_LEVEL
    ensures Inv(r)
    decreases MAX_LEVEL - h.blocks[a].level
  {
    var level := h.blocks[a].level;
    if BuddyOf(a, level) in h.free[level] then
      if level < MAX_LEVEL - 1 then
        MergeKeepsInv(h, a);
        Dealloc(Merge(h, a), Min(a, BuddyOf(a, level)))
      else
        ReturnPageKeepsInv(h, a);
        ReturnPage(h, a)
    else
      PushKeepsInv(h, a);
      Push(h, a)
  }

  lemma MergeFrame(h: Heap, a: nat)
    requires Mergeable(h, a) && Paired(h, a)
    ensures var lower := Min(a, BuddyOf(a, h.blocks[a].level));
      && lower in Merge(h, a).blocks && Merge(h, a).blocks[lower] == Block(h.blocks[a].level + 1, true)
      && Live(Merge(h, a)) - {lower} == Live(h) - {a}
      && WholePages(Merge(h, a)) == WholePages(h)
  {
    var b := BuddyOf(a, h.blocks[a].level);
    assert b in h.blocks && !h.blocks[b].live;
    var l, l' := Live(Merge(h, a)) - {Min(a, b)}, Live(h) - {a};
    assert forall c :: c in l <==> c in l';
  }

  lemma ReturnPageFrame(h: Heap, a: nat)
    requires Mergeable(h, a) && Paired(h, a) && P.PagesInv(h.pages) && Unshared(h) && PageOf(a) in h.pages.buddy
    ensures PageOf(a) in h.pages.usage
    ensures Live(ReturnPage(h, a)) == Live(h) - {a} && WholePages(ReturnPage(h, a)) == WholePages(h)
  {
    var h' := ReturnPage(h, a);
    assert forall c :: c in Live(h') <==> c in Live(h) - {a};
    assert h'.pages.usage == h.pages.usage[PageOf(a) := 0];
  }

  lemma PushFrame(h: Heap, a: nat)
    requires a in h.blocks && h.blocks[a].level < |h.free|
    ensures Live(Push(h, a)) == Live(h) - {a} && WholePages(Push(h, a)) == WholePages(h)
  {
  }

  /** Releasing a block takes that block and nothing else away from its holders. */
  lemma {:induction false} DeallocFrame(h: Heap, a: nat)
    requires Inv(h) && a in h.blocks && h.blocks[a].live && h.blocks[a].level < MAX_LEVEL
    ensures Live(Dealloc(h, a)) == Live(h) - {a} && WholePages(Dealloc(h, a)) == WholePages(h)
    decreases MAX_LEVEL - h.blocks[a].level
  {
    var level := h.blocks[a].level;
    var b := BuddyOf(a, level);
    if b in h.free[level] {
      PairSpan(h, a);
      if level < MAX_LEVEL - 1 {
        MergeKeepsInv(h, a);
        MergeFrame(h, a);
        DeallocFrame(Merge(h, a), Min(a, b));
      } else {
        ReturnPageFrame(h, a);
      }
    } else {
      PushFrame(h, a);
    }
  }

  // ---------- one allocation undone ----------

  /** Equal but for the low-memory threshold and the inode a reused page loses. */
  ghost predicate SameHeap(h: Heap, h': Heap) {
    h' == h.(pages := h.pages.(minFree := h'.pages.minFree, cached := h'.pages.cached))
  }

  lemma SplitThenMerge(h: Heap, b: nat, level: nat)
    requires Inv(h) && level < MAX_LEVEL - 1 && b in h.blocks && h.blocks[b] == Block(level + 1, true)
    requires h.free[level] == []
    ensures var h1 := Split(h, b, level);
      BuddyOf(b, level) in h1.free[level] && Min(b, BuddyOf(b, level)) == b && Merge(h1, b) == h
  {
    hide Inv, D.Delete;
    SplitFacts(h, b, level);
    var h1, buddy := Split(h, b, level), BuddyOf(b, level);
    RemoveOnly(h.free, level, buddy);
    var h2 := Merge(h1, b);
    assert h2.blocks == h.blocks;
    assert h2.free == h.free;
  }

  lemma SplitFacts(h: Heap, b: nat, level: nat)
    requires Inv(h) && level < MAX_LEVEL && b in h.blocks && h.blocks[b] == Block(level + 1, true)
    ensures |h.free| == MAX_LEVEL + 1 && BuddyOf(b, level) !in h.blocks && BuddyOf(b, level) > b
  {
    hide Covers, NoFreePair, Unshared, P.PagesInv;
    SplitDisjoint(h, b, level);
    SplitPlaced(h, b, level);
  }

  lemma PopThenPush(h: Heap, level: nat)
    requires Inv(h) && level < MAX_LEVEL && h.free[level] != []
    ensures var (h1, b) := (Pop(h, level), h.free[level][0]);
      BuddyOf(b, level) !in h1.free[level] && Push(h1, b) == h
  {
    var h1, b := Pop(h, level), h.free[level][0];
    assert b in h.free[level];
    assert h.blocks[b] == Block(level, false) && |h.free| == MAX_LEVEL + 1;
    NoFreeBuddy(h, b, level);
    hide Inv, ListsMatch;
    assert h.free[level] == [b] + h1.free[level];
    assert Push(h1, b).free == h.free;
    assert Push(h1, b).blocks == h.blocks;
  }

  lemma NoFreeBuddy(h: Heap, b: nat, level: nat)
    requires ListsMatch(h) && NoFreePair(h.blocks) && level < MAX_LEVEL && b in h.free[level]
    ensures BuddyOf(b, level) !in h.free[level]
  {
    assert b in h.blocks && h.blocks[b] == Block(level, false);
    forall c | c in h.free[level] ensures c != BuddyOf(b, level) {
      assert c in h.blocks;
    }
  }

  lemma AdoptThenReturn(h: Heap, ps: P.PageState, p: nat)
    requires Inv(h) && h.pages.ring != [] && (ps, p) == P.Get(h.pages) && h.free[MAX_LEVEL - 1] == []
    ensures var hm, b := AdoptPage(h, ps, p), PageBase(p);
      var h1 := Split(hm, b, MAX_LEVEL - 1);
      && BuddyOf(b, MAX_LEVEL - 1) in h1.free[MAX_LEVEL - 1] && PageOf(b) in h1.pages.usage
      && SameHeap(h, ReturnPage(h1, b))
  {
    hide Inv, D.Delete, P.PagesInv, P.Get;
    AdoptedPage(h, ps, p);
    var hm, b, level := AdoptPage(h, ps, p), PageBase(p), MAX_LEVEL - 1;
    var h1, buddy := Split(hm, b, level), BuddyOf(b, level);
    SplitFacts(hm, b, level);
    RemoveOnly(h.free, level, buddy);
    assert h1.pages.(buddy := h1.pages.buddy - {p}) == ps;
    assert h1.blocks - {b, buddy} == h.blocks;
  }

  /** The page taken is not a buddy page yet, and giving it back restores the page table. */
  lemma AdoptedPage(h: Heap, ps: P.PageState, p: nat)
    requires Inv(h) && h.pages.ring != [] && (ps, p) == P.Get(h.pages)
    ensures |h.free| == MAX_LEVEL + 1 && Inv(AdoptPage(h, ps, p)) && PageBase(p) !in h.blocks
    ensures PageBase(p) >= OFFSET && PageOf(PageBase(p)) == p && p in ps.usage && p !in ps.buddy
    ensures P.Release(ps, p).(minFree := h.pages.minFree, cached := h.pages.cached) == h.pages
  {
    AdoptPageKeepsInv(h);
    AdoptPagePages(h);
    P.GetThenRelease(h.pages);
    PageBaseFacts(p);
    hide Placed, Covers, Disjoint, NoFreePair, P.PagesInv;
  }

  lemma RemoveOnly(free: seq<seq<nat>>, level: nat, b: nat)
    requires level < |free| && free[level] == []
    ensures var listed := free[level := [b]]; listed[level := D.Delete(listed[level], b)] == free
  {
    assert D.Delete([b], b) == [];
  }

  /** Asking for a block of `level` and giving it straight back leaves the heap as it was. */
  ghost predicate Undone(h: Heap, level: nat)
    requires |h.free| == MAX_LEVEL + 1 && level < MAX_LEVEL
  {
    var h1, b := Alloc(h, level).0, Alloc(h, level).1;
    Inv(h1) && b in h1.blocks && h1.blocks[b] == Block(level, true) && SameHeap(h, Dealloc(h1, b))
  }

  lemma UndoPop(h: Heap, level: nat)
    requires Inv(h) && level < MAX_LEVEL && h.free[level] != []
    ensures Undone(h, level)
  {
    PopKeepsInv(h, level);
    PopThenPush(h, level);
  }

  lemma UndoSplit(h: Heap, level: nat)
    requires Inv(h) && level < MAX_LEVEL - 1 && h.free[level] == []
    requires AllocSpec(h, level + 1, Alloc(h, level + 1)) && Alloc(h, level + 1).1 != NULL
    requires Undone(h, level + 1)
    ensures Undone(h, level)
  {
    var (hm, b) := Alloc(h, level + 1);
    SplitKeepsInv(hm, b, level);
    SplitThenMerge(hm, b, level);
  }

  lemma GotFree(s: P.PageState)
    requires s.ring != []
    ensures P.Get(s).1 == s.ring[0]
  {
  }

  lemma SplitHolds(h: Heap, b: nat, level: nat)
    requires level < |h.free| && level < MAX_LEVEL && BuddyOf(b, level) != b
    ensures var r := Split(h, b, level); b in r.blocks && r.blocks[b] == Block(level, true)
  {
  }

  lemma UndoPage(h: Heap)
    requires Inv(h) && h.free[MAX_LEVEL - 1] == [] && h.pages.ring != []
    ensures Undone(h, MAX_LEVEL - 1)
  {
    hide Inv, SameHeap, Split, ReturnPage, P.Get;
    GotFree(h.pages);
    var ps, p := P.Get(h.pages).0, P.Get(h.pages).1;
    AdoptedPage(h, ps, p);
    SplitKeepsInv(AdoptPage(h, ps, p), PageBase(p), MAX_LEVEL - 1);
    AdoptThenReturn(h, ps, p);
    SplitFacts(AdoptPage(h, ps, p), PageBase(p), MAX_LEVEL - 1);
    SplitHolds(AdoptPage(h, ps, p), PageBase(p), MAX_LEVEL - 1);
    assert Alloc(h, MAX_LEVEL) == (AdoptPage(h, ps, p), PageBase(p));
    var h1 := Split(AdoptPage(h, ps, p), PageBase(p), MAX_LEVEL - 1);
    assert Alloc(h, MAX_LEVEL - 1) == (h1, PageBase(p));
    assert Dealloc(h1, PageBase(p)) == ReturnPage(h1, PageBase(p));
  }

  lemma AllocCases(h: Heap, level: nat)
    requires Inv(h) && level < MAX_LEVEL && Alloc(h, level).1 != NULL
    ensures |h.free| == MAX_LEVEL + 1
    ensures h.free[level] == [] && level < MAX_LEVEL - 1 ==> Alloc(h, level + 1).1 != NULL
    ensures h.free[level] == [] && level == MAX_LEVEL - 1 ==> h.pages.ring != []
  {
    P.GetKeepsInv(h.pages);
    hide P.PagesInv, Placed, Covers, Disjoint, NoFreePair, Unshared;
  }

  /** buddy_dealloc right after buddy_alloc undoes every split and page grab, list order included. */
  lemma {:induction false} AllocThenDealloc(h: Heap, level: nat)
    requires Inv(h) && level < MAX_LEVEL && Alloc(h, level).1 != NULL
    ensures Undone(h, level)
    decreases MAX_LEVEL - level
  {
    hide Inv, Undone;
    AllocCases(h, level);
    if h.free[level] != [] {
      UndoPop(h, level);
    } else if level < MAX_LEVEL - 1 {
      AllocMeetsSpec(h, level + 1);
      AllocThenDealloc(h, level + 1);
      UndoSplit(h, level);
    } else {
      UndoPage(h);
    }
  }

  // ---------- no page is ever wholly free ----------

  /** The block that holds a free block's buddy is held by a caller or smaller. */
  lemma BuddyHolder(h: Heap, a: nat) returns (c: nat)
    requires Placed(h) && Disjoint(h.blocks) && Covers(h) && NoFreePair(h.blocks)
    requires a in h.blocks && !h.blocks[a].live && h.blocks[a].level < MAX_LEVEL
    ensures c in h.blocks && PageOf(c) == PageOf(a) && (h.blocks[c].live || h.blocks[c].level < h.blocks[a].level)
  {
    hide Size, PageOf, PageBase, Aligned;
    var level := h.blocks[a].level;
    var b: nat := BuddyOf(a, level);
    BuddyPairs(a, level);
    assert Covered(h.blocks, b);
    c :| c in h.blocks && c <= b < End(h.blocks, c);
    var larger := h.blocks[c].level;
    InsideBlock(c, larger, b);
    if larger > level {
      PairInside(a, level, c, larger);
      Overlap(h.blocks, a, c);
    } else if larger == level {
      SameCell(b, c, level);
    }
  }

  /** Two different blocks do not overlap. */
  lemma Overlap(blocks: map<nat, Block>, a: nat, c: nat)
    requires Disjoint(blocks) && a in blocks && c in blocks && c <= a < End(blocks, c)
    ensures a == c
  {
    hide Size;
  }

  lemma SameCell(b: nat, c: nat, level: nat)
    requires level <= MAX_LEVEL && Aligned(b, level) && Aligned(c, level) && c <= b < c + Size(level)
    ensures b == c
  {
    var m := Size(level);
    assert b == m * (b / m) && c == m * (c / m);
    CellOrder(m, b / m, c / m);
  }

  lemma {:induction false} LiveNearby(h: Heap, a: nat)
    requires Inv(h) && a in h.blocks
    ensures exists c :: c in Live(h) && PageOf(c) == PageOf(a)
    decreases h.blocks[a].level
  {
    if h.blocks[a].live {
      assert a in Live(h);
    } else {
      var c := BuddyHolder(h, a);
      if h.blocks[c].live {
        assert c in Live(h);
      } else {
        LiveNearby(h, c);
      }
    }
  }

  /** Every page flagged PAGE_BUDDY holds at least one block a caller still has. */
  lemma NoPageWhollyFree(h: Heap, p: nat)
    requires Inv(h) && p in h.pages.buddy
    ensures exists a :: a in Live(h) && PageOf(a) == p
  {
    PageBaseFacts(p);
    assert Covered(h.blocks, PageBase(p));
    var a :| a in h.blocks && a <= PageBase(p) < End(h.blocks, a);
    BlockInPage(a, h.blocks[a].level);
    LiveNearby(h, a);
  }

  // ---------- kmalloc and kfree ----------

  /** The smallest level whose blocks hold `size` bytes. */
  function LevelFor(size: nat, level: nat): (r: nat)
    requires level <= MAX_LEVEL && size <= PAGE
    ensures level <= r <= MAX_LEVEL && size <= Size(r)
    ensures r == level || Size(r - 1) < size
    decreases MAX_LEVEL - level
  {
    if Size(level) < size then LevelFor(size, level + 1) else level
  }

  /** Does the 32-bit sum of the request and the header fit a buddy block (alloc.c:14)? */
  predicate BuddyRoute(size: nat) {
    (size + HEADER) % WORD <= Size(MAX_LEVEL - 1)
  }

  function RequestLevel(size: nat): (level: nat)
    requires BuddyRoute(size)
    ensures level < MAX_LEVEL
  {
    LevelFor((size + HEADER) % WORD, 0)
  }

  function Malloc(h: Heap, size: nat): (Heap, nat)
    requires |h.free| == MAX_LEVEL + 1 && size < WORD
  {
    if BuddyRoute(size) then
      var (h1, b) := Alloc(h, RequestLevel(size));
      (h1, if b == NULL then NULL else b + HEADER)
    else if size > PAGE then (h, NULL)
    else
      var (ps, p) := P.Get(h.pages);
      (h.(pages := ps), if p < 0 then NULL else PageBase(p))
  }

  /** A caller holds the block whose header ends at `ptr`. */
  ghost predicate HeldBlock(h: Heap, ptr: nat) {
    ptr >= HEADER && ptr - HEADER in Live(h)
  }

  /** A caller holds the whole page that starts at `ptr`. */
  ghost predicate HeldPage(h: Heap, ptr: nat) {
    ptr >= OFFSET && PageOf(ptr) in WholePages(h) && ptr == PageBase(PageOf(ptr))
  }

  /** kmalloc returned `ptr` and nobody has given it back. */
  ghost predicate Held(h: Heap, ptr: nat) {
    HeldBlock(h, ptr) || HeldPage(h, ptr)
  }

  /** No block as large as a page is in a caller's hands. */
  ghost predicate Settled(h: Heap) {
    && Inv(h)
    && forall a :: a in Live(h) ==> Live(h)[a] < MAX_LEVEL
  }

  /** The page flag tells which allocator a held pointer came from, so kfree never misroutes one. */
  lemma FlagTellsRoute(h: Heap, ptr: nat)
    requires Inv(h) && Held(h, ptr)
    ensures ptr >= OFFSET
    ensures PageOf(ptr) in h.pages.buddy <==> HeldBlock(h, ptr)
    ensures PageOf(ptr) !in h.pages.buddy <==> HeldPage(h, ptr)
    ensures HeldBlock(h, ptr) ==> PageOf(ptr) == PageOf(ptr - HEADER)
  {
    if HeldBlock(h, ptr) {
      InsideBlock(ptr - HEADER, h.blocks[ptr - HEADER].level, ptr);
    }
  }

  /** kfree on a pointer some caller holds. */
  ghost function Free(h: Heap, ptr: nat): Heap
    requires Settled(h) && Held(h, ptr)
  {
    FlagTellsRoute(h, ptr);
    var p := PageOf(ptr);
    if p in h.pages.buddy then
      assert Live(h)[ptr - HEADER] < MAX_LEVEL;
      Dealloc(h, ptr - HEADER)
    else
      h.(pages := P.Release(h.pages, p))
  }

  /** The bytes set aside for a held pointer, header included. */
  ghost function Extent(h: Heap, ptr: nat): (nat, nat)
    requires Held(h, ptr)
  {
    if HeldBlock(h, ptr) then (ptr - HEADER, End(h.blocks, ptr - HEADER)) else (ptr, ptr + PAGE)
  }

  lemma ExtentInPage(h: Heap, ptr: nat)
    requires Inv(h) && Held(h, ptr)
    ensures ptr >= OFFSET
    ensures PageBase(PageOf(ptr)) <= Extent(h, ptr).0 && Extent(h, ptr).1 <= PageBase(PageOf(ptr)) + PAGE
  {
    hide Inv, Live, PageOf, PageBase, Size, HeldPage;
    FlagTellsRoute(h, ptr);
    if HeldBlock(h, ptr) {
      LivePlaced(h, ptr - HEADER);
      BlockInPage(ptr - HEADER, h.blocks[ptr - HEADER].level);
    } else {
      WholePageStart(h, ptr);
    }
  }

  lemma LivePlaced(h: Heap, a: nat)
    requires Inv(h) && a in Live(h)
    ensures a in h.blocks && a >= OFFSET && h.blocks[a].level <= MAX_LEVEL && Aligned(a, h.blocks[a].level)
  {
    hide ListsMatch, Covers, Disjoint, NoFreePair, Unshared, Size, Aligned;
  }

  lemma WholePageStart(h: Heap, ptr: nat)
    requires HeldPage(h, ptr)
    ensures ptr >= OFFSET && PageBase(PageOf(ptr)) == ptr
  {
  }

  /** Two pointers held at the same time never share a byte. */
  lemma HeldExtentsApart(h: Heap, ptr: nat, other: nat)
    requires Inv(h) && Held(h, ptr) && Held(h, other) && ptr != other
    ensures Extent(h, ptr).1 <= Extent(h, other).0 || Extent(h, other).1 <= Extent(h, ptr).0
  {
    hide Inv, PageOf, PageBase, Live;
    if HeldBlock(h, ptr) && HeldBlock(h, other) {
      LiveApart(h, ptr - HEADER, other - HEADER);
    } else {
      hide HeldBlock, HeldPage;
      DifferentPages(h, ptr, other);
      ExtentInPage(h, ptr);
      ExtentInPage(h, other);
      PagesApart(PageOf(ptr), PageOf(other));
    }
  }

  lemma LiveApart(h: Heap, a: nat, b: nat)
    requires Inv(h) && a in Live(h) && b in Live(h) && a != b
    ensures a in h.blocks && b in h.blocks && (End(h.blocks, a) <= b || End(h.blocks, b) <= a)
  {
    hide ListsMatch, Placed, Covers, NoFreePair, Unshared, Size;
    BlocksApart(h.blocks, a, b);
  }

  lemma DifferentPages(h: Heap, ptr: nat, other: nat)
    requires Inv(h) && Held(h, ptr) && Held(h, other) && ptr != other && !(HeldBlock(h, ptr) && HeldBlock(h, other))
    ensures ptr >= OFFSET && other >= OFFSET && PageOf(ptr) != PageOf(other)
  {
    FlagTellsRoute(h, ptr);
    FlagTellsRoute(h, other);
  }

  lemma BlocksApart(blocks: map<nat, Block>, a: nat, b: nat)
    requires Disjoint(blocks) && a in blocks && b in blocks && a != b
    ensures End(blocks, a) <= b || End(blocks, b) <= a
  {
  }

  // ---------- what the two calls promise ----------

  ghost predicate OneMoreHeld(h: Heap, h1: Heap, ptr: nat) {
    !Held(h, ptr) && forall q: nat :: Held(h1, q) <==> Held(h, q) || q == ptr
  }

  /** What kmalloc promises about the result `r` of asking a settled heap for `size` bytes. */
  ghost predicate MallocSpec(h: Heap, size: nat, r: (Heap, nat))
    requires Settled(h) && size < WORD
  {
    && Settled(r.0)
    && (r.1 == NULL <==>
          if BuddyRoute(size) then Exhausted(h, RequestLevel(size)) else size > PAGE || h.pages.ring == [])
    && (r.1 == NULL ==> r.0 == h.(pages := h.pages.(minFree := r.0.pages.minFree)))
    && (r.1 != NULL ==> OneMoreHeld(h, r.0, r.1))
    && (r.1 != NULL ==> (r.1 + size <= Extent(r.0, r.1).1 <==> size + HEADER < WORD))
  }

  lemma BlockMeansHeld(h: Heap, h1: Heap, b: nat)
    requires b !in Live(h) && b in Live(h1) && Live(h1) == Live(h)[b := Live(h1)[b]] && WholePages(h1) == WholePages(h)
    requires !HeldPage(h1, b + HEADER)
    ensures OneMoreHeld(h, h1, b + HEADER)
  {
  }

  lemma BlockCapacity(h: Heap, b: nat, size: nat)
    requires BuddyRoute(size) && size < WORD && b in Live(h) && Live(h)[b] == RequestLevel(size)
    ensures HeldBlock(h, b + HEADER)
    ensures b + HEADER + size <= Extent(h, b + HEADER).1 <==> size + HEADER < WORD
  {
    assert size + HEADER < WORD ==> (size + HEADER) % WORD == size + HEADER;
    assert h.blocks[b].level == RequestLevel(size);
    assert Size(RequestLevel(size)) <= PAGE;
  }

  lemma MallocBlock(h: Heap, size: nat)
    requires Settled(h) && size < WORD && BuddyRoute(size)
    ensures MallocSpec(h, size, Malloc(h, size))
  {
    hide Inv, LevelFor, Exhausted;
    var level := RequestLevel(size);
    AllocMeetsSpec(h, level);
    var h1, b := Alloc(h, level).0, Alloc(h, level).1;
    if b == NULL {
      assert Live(h1) == Live(h);
      assert Malloc(h, size) == (h1, NULL);
    } else {
      ServedMeans(h, level, h1, b, size);
      assert Malloc(h, size) == (h1, b + HEADER);
    }
  }

  lemma ServedMeans(h: Heap, level: nat, h1: Heap, b: nat, size: nat)
    requires Settled(h) && Inv(h1) && Served(h, level, h1, b) && BuddyRoute(size) && size < WORD
      && level == RequestLevel(size)
    ensures Settled(h1) && OneMoreHeld(h, h1, b + HEADER) && HeldBlock(h1, b + HEADER)
    ensures b + HEADER + size <= Extent(h1, b + HEADER).1 <==> size + HEADER < WORD
  {
    hide Inv;
    assert Live(h1)[b] == level;
    FlagTellsRoute(h1, b + HEADER);
    hide Live, WholePages, PageOf, RequestLevel, LevelFor;
    BlockMeansHeld(h, h1, b);
    BlockCapacity(h1, b, size);
    assert forall a :: a in Live(h1) ==> a == b || a in Live(h);
  }

  lemma MallocPage(h: Heap, size: nat)
    requires Settled(h) && size < WORD && !BuddyRoute(size)
    ensures MallocSpec(h, size, Malloc(h, size))
  {
    if size <= PAGE {
      GotPage(h);
      var h1, p := h.(pages := P.Get(h.pages).0), P.Get(h.pages).1;
      hide Inv, Live, WholePages;
      if p >= 0 {
        PageMeansHeld(h, h1, p);
        PageBaseFacts(p);
        WholePageExtent(h1, p);
      }
    }
  }

  /** What page_get_free means for the heap. */
  lemma GotPage(h: Heap)
    requires Inv(h)
    ensures var h1, p := h.(pages := P.Get(h.pages).0), P.Get(h.pages).1;
      && Inv(h1) && Live(h1) == Live(h)
      && (p < 0 <==> h.pages.ring == [])
      && (p < 0 ==> h1 == h.(pages := h.pages.(minFree := h1.pages.minFree)))
      && (p >= 0 ==> p !in WholePages(h) && WholePages(h1) == WholePages(h) + {p})
  {
    P.GetKeepsInv(h.pages);
    var h1, p := h.(pages := P.Get(h.pages).0), P.Get(h.pages).1;
    if p >= 0 { assert p in h.pages.ring; }
    WholePageKeepsInv(h, h1);
  }

  lemma WholePageExtent(h: Heap, p: nat)
    requires Inv(h) && p in WholePages(h) && Held(h, PageBase(p))
    ensures Extent(h, PageBase(p)) == (PageBase(p), PageBase(p) + PAGE)
  {
    PageBaseFacts(p);
    FlagTellsRoute(h, PageBase(p));
  }

  lemma WholePageKeepsInv(h: Heap, h1: Heap)
    requires Inv(h) && h1 == h.(pages := h1.pages) && P.PagesInv(h1.pages) && Unshared(h1)
    requires h1.pages.buddy == h.pages.buddy
    ensures Inv(h1)
  {
  }

  lemma PageMeansHeld(h: Heap, h1: Heap, p: nat)
    requires Inv(h1) && h1.blocks == h.blocks && WholePages(h1) == WholePages(h) + {p} && p !in WholePages(h)
    ensures OneMoreHeld(h, h1, PageBase(p))
  {
    PageBaseFacts(p);
    assert HeldPage(h1, PageBase(p));
    FlagTellsRoute(h1, PageBase(p));
    assert Live(h1) == Live(h);
  }

  /**
   kmalloc keeps the heap sound; it fails iff nothing can serve the request and
   then leaves the lists alone; otherwise it returns one pointer nobody held, with
   room for `size` bytes unless adding the header overflowed.
   */
  lemma MallocMeetsSpec(h: Heap, size: nat)
    requires Settled(h) && size < WORD
    ensures MallocSpec(h, size, Malloc(h, size))
  {
    if BuddyRoute(size) {
      MallocBlock(h, size);
    } else {
      MallocPage(h, size);
    }
  }

  const LENGTHS: seq<nat> := [32, 64, 128, 256, 512, 1024, 2048]

  /** The level whose blocks are the shortest that hold `n` bytes. */
  lemma ShortestBlock(n: nat)
    requires n <= 2048
    ensures var l := LevelFor(n, 0);
      && l < 7 && n <= LENGTHS[l] && (l > 0 ==> LENGTHS[l - 1] < n)
      && forall m :: 0 <= m < 7 ==> Size(m) == LENGTHS[m] && (l <= m <==> n <= LENGTHS[m])
  {
  }

  /** Nothing of at least `n` bytes is free. */
  ghost predicate NothingOf(h: Heap, n: nat) {
    h.pages.ring == [] && forall l :: 0 <= l < 7 && l < |h.free| && LENGTHS[l] >= n ==> h.free[l] == []
  }

  /** `ptr` is behind the 12 bytes of header of a held block, which has the shortest length that holds `n` bytes. */
  ghost predicate BlockOfSize(h: Heap, ptr: nat, n: nat) {
    && HeldBlock(h, ptr) && Extent(h, ptr).0 == ptr - 12
    && exists l :: 0 <= l < 7 && Extent(h, ptr).1 - Extent(h, ptr).0 == LENGTHS[l]
                   && n <= LENGTHS[l] && forall m :: 0 <= m < l ==> LENGTHS[m] < n
  }

  lemma SmallRequest(h: Heap, size: nat, n: nat)
    requires Settled(h) && size < WORD && n == (size + 12) % 0x1_0000_0000 && n <= 2048
    ensures var (h1, ptr) := Malloc(h, size);
      (ptr == 0 <==> NothingOf(h, n)) && (ptr != 0 ==> BlockOfSize(h1, ptr, n))
  {
    hide Inv, LevelFor, Exhausted, Live, Size;
    ShortestBlock(n);
    MallocRoute(size);
    var level := RequestLevel(size);
    AllocMeetsSpec(h, level);
    ExhaustedIs(h, level, n);
    var (h1, b) := Alloc(h, level);
    if b != NULL {
      ServedMeans(h, level, h1, b, size);
      HeldAt(h1, b, level);
    }
  }

  lemma MallocRoute(size: nat)
    ensures BuddyRoute(size) <==> (size + 12) % 0x1_0000_0000 <= 2048
    ensures BuddyRoute(size) ==> RequestLevel(size) == LevelFor((size + 12) % 0x1_0000_0000, 0)
  {
  }

  lemma ExhaustedIs(h: Heap, level: nat, n: nat)
    requires |h.free| == MAX_LEVEL + 1 && level < 7 && forall m :: 0 <= m < 7 ==> (level <= m <==> n <= LENGTHS[m])
    ensures Exhausted(h, level) <==> NothingOf(h, n)
  {
  }

  lemma HeldAt(h: Heap, b: nat, level: nat)
    requires b in Live(h) && Live(h)[b] == level
    ensures HeldBlock(h, b + HEADER) && Extent(h, b + HEADER) == (b, b + Size(level))
  {
  }

  /**
   What kmalloc does with each size. The request and a header of 12 bytes, added up in
   32 bits, get the shortest block that holds them if 2048 bytes do; requests up to
   4096 bytes get a page, and longer ones nothing.
   */
  lemma KmallocBySize(h: Heap, size: nat)
    requires Settled(h) && size < 0x1_0000_0000
    ensures var (h1, ptr) := Malloc(h, size);
      && (size + 12 <= 2048 ==>
            (ptr == 0 <==> NothingOf(h, size + 12)) && (ptr != 0 ==> BlockOfSize(h1, ptr, size + 12)))
      && (2036 < size <= 4096 ==> (ptr == 0 <==> h.pages.ring == []) && (ptr != 0 ==> HeldPage(h1, ptr)))
      && (4096 < size < 0xFFFF_FFF4 ==> ptr == 0 && h1 == h)
      && (0xFFFF_FFF4 <= size ==>
            var n := size - 0xFFFF_FFF4; (ptr == 0 <==> NothingOf(h, n)) && (ptr != 0 ==> BlockOfSize(h1, ptr, n)))
  {
    hide Settled, BuddyRoute, Malloc, HeldPage, NothingOf, BlockOfSize;
    if (size + 12) % 0x1_0000_0000 <= 2048 {
      SmallRequest(h, size, (size + 12) % 0x1_0000_0000);
    } else {
      LargeRequest(h, size);
    }
  }

  lemma LargeRequest(h: Heap, size: nat)
    requires Settled(h) && size < WORD && (size + 12) % 0x1_0000_0000 > 2048
    ensures var (h1, ptr) := Malloc(h, size);
      if size > 4096 then ptr == 0 && h1 == h
      else (ptr == 0 <==> h.pages.ring == []) && (ptr != 0 ==> HeldPage(h1, ptr))
  {
    hide Inv, Live, WholePages;
    MallocRoute(size);
    GotPage(h);
    var h1, p := h.(pages := P.Get(h.pages).0), P.Get(h.pages).1;
    if p >= 0 {
      PageBaseFacts(p);
    }
  }

  /** kfree keeps the heap sound and takes exactly the given pointer out of its callers' hands. */
  lemma FreeMeetsSpec(h: Heap, ptr: nat)
    requires Settled(h) && Held(h, ptr)
    ensures Settled(Free(h, ptr)) && OneMoreHeld(Free(h, ptr), h, ptr)
  {
    hide Inv;
    FlagTellsRoute(h, ptr);
    if HeldBlock(h, ptr) {
      FreeBlock(h, ptr - HEADER);
    } else {
      FreePage(h, ptr);
    }
  }

  lemma FreeBlock(h: Heap, a: nat)
    requires Settled(h) && a in Live(h)
    ensures h.blocks[a].level < MAX_LEVEL && Settled(Dealloc(h, a)) && OneMoreHeld(Dealloc(h, a), h, a + HEADER)
  {
    assert Live(h)[a] < MAX_LEVEL;
    DeallocFrame(h, a);
    var h1 := Dealloc(h, a);
    FewerHeld(h, h1, a);
  }

  lemma FewerHeld(h: Heap, h1: Heap, a: nat)
    requires Settled(h) && a in Live(h) && Inv(h1) && Live(h1) == Live(h) - {a} && WholePages(h1) == WholePages(h)
    ensures Settled(h1) && OneMoreHeld(h1, h, a + HEADER)
  {
    hide Inv;
    FlagTellsRoute(h, a + HEADER);
    BlockMeansHeld(h1, h, a) by {
      assert Live(h) == Live(h1)[a := Live(h)[a]];
    }
    assert forall c :: c in Live(h1) ==> c in Live(h) && Live(h1)[c] == Live(h)[c];
  }

  lemma FreePage(h: Heap, ptr: nat)
    requires Settled(h) && HeldPage(h, ptr) && !HeldBlock(h, ptr)
    ensures Free(h, ptr) == h.(pages := P.Release(h.pages, PageOf(ptr)))
    ensures Settled(Free(h, ptr)) && OneMoreHeld(Free(h, ptr), h, ptr)
  {
    var p, h1 := PageOf(ptr), Free(h, ptr);
    P.ReleaseKeepsInv(h.pages, p);
    assert h.pages.usage[p] == 1;
    WholePageKeepsInv(h, h1);
    assert WholePages(h) == WholePages(h1) + {p};
    assert Live(h1) == Live(h);
    PageMeansHeld(h1, h, p);
  }

  /** Freeing `ptr` takes `h1` back to `h`. */
  ghost predicate UndoneBy(h: Heap, h1: Heap, ptr: nat) {
    Settled(h1) && Held(h1, ptr) && SameHeap(h, Free(h1, ptr))
  }

  lemma FreeLevels(h: Heap)
    requires Settled(h)
    ensures |h.free| == MAX_LEVEL + 1
  {
  }

  lemma MallocOfBlock(h: Heap, size: nat)
    requires Settled(h) && size < WORD && BuddyRoute(size) && Malloc(h, size).1 != NULL
    requires MallocSpec(h, size, Malloc(h, size))
    ensures Inv(h) && RequestLevel(size) < MAX_LEVEL && Settled(Malloc(h, size).0) && Malloc(h, size).1 > HEADER
    ensures (Malloc(h, size).0, Malloc(h, size).1 - HEADER) == Alloc(h, RequestLevel(size))
  {
    hide Inv, Alloc;
  }

  lemma UndoMallocBlock(h: Heap, size: nat)
    requires Settled(h) && size < WORD && BuddyRoute(size) && Malloc(h, size).1 != NULL
    ensures UndoneBy(h, Malloc(h, size).0, Malloc(h, size).1)
  {
    hide Inv, Settled, BuddyRoute, Alloc, Malloc, UndoneBy, MallocSpec, RequestLevel;
    FreeLevels(h);
    MallocBlock(h, size);
    MallocOfBlock(h, size);
    UndoBlock(h, RequestLevel(size), Malloc(h, size).0, Malloc(h, size).1 - HEADER);
  }

  /** Every kmalloc that succeeds is undone, free-list and ring order included, by the matching kfree. */
  lemma MallocThenFree(h: Heap, size: nat)
    requires Settled(h) && size < WORD && Malloc(h, size).1 != NULL
    ensures UndoneBy(h, Malloc(h, size).0, Malloc(h, size).1)
  {
    hide Malloc, BuddyRoute, UndoneBy;
    if BuddyRoute(size) {
      UndoMallocBlock(h, size);
    } else {
      MallocPage(h, size);
      UndoWholePage(h, size);
    }
  }

  lemma UndoBlock(h: Heap, level: nat, h1: Heap, b: nat)
    requires Inv(h) && level < MAX_LEVEL && (h1, b) == Alloc(h, level) && b != NULL && Settled(h1)
    ensures UndoneBy(h, h1, b + HEADER)
  {
    assert |h.free| == MAX_LEVEL + 1;
    hide Inv, Settled, SameHeap, Alloc, Dealloc, Free, Held;
    AllocThenDealloc(h, level);
    FreeOfBlock(h1, b);
  }

  lemma FreeOfBlock(h: Heap, a: nat)
    requires Settled(h) && a in h.blocks && h.blocks[a].live && h.blocks[a].level < MAX_LEVEL
    ensures Inv(h) && Held(h, a + HEADER) && Free(h, a + HEADER) == Dealloc(h, a)
  {
    hide Inv, Dealloc;
    FlagTellsRoute(h, a + HEADER);
  }

  lemma UndoWholePage(h: Heap, size: nat)
    requires Settled(h) && size < WORD && !BuddyRoute(size) && Malloc(h, size).1 != NULL
    requires MallocSpec(h, size, Malloc(h, size))
    ensures UndoneBy(h, Malloc(h, size).0, Malloc(h, size).1)
  {
    var h1, ptr := Malloc(h, size).0, Malloc(h, size).1;
    P.GetKeepsInv(h.pages);
    P.GetThenRelease(h.pages);
    var p := P.Get(h.pages).1;
    PageBaseFacts(p);
    assert p in h.pages.ring;
    assert HeldPage(h1, ptr);
    FlagTellsRoute(h1, ptr);
    FreePage(h1, ptr);
  }

  // ---------- runs ----------

  datatype Call = CallMalloc(size: nat) | CallFree(ptr: nat)

  /** The calls a correct caller may make: machine-word sizes, and only pointers somebody holds. */
  ghost predicate Legal(h: Heap, c: Call) {
    match c
    case CallMalloc(size) => size < WORD
    case CallFree(ptr) => Held(h, ptr)
  }

  ghost function Step(h: Heap, c: Call): Heap {
    if !Settled(h) || !Legal(h, c) then h
    else match c
      case CallMalloc(size) => Malloc(h, size).0
      case CallFree(ptr) => Free(h, ptr)
  }

  ghost function Run(h: Heap, calls: seq<Call>): Heap
    decreases |calls|
  {
    if calls == [] then h else Run(Step(h, calls[0]), calls[1..])
  }

  lemma StepKeepsSettled(h: Heap, c: Call)
    requires Settled(h)
    ensures Settled(Step(h, c))
  {
    if Legal(h, c) {
      match c
      case CallMalloc(size) => MallocMeetsSpec(h, size);
      case CallFree(ptr) => FreeMeetsSpec(h, ptr);
    }
  }

  lemma {:induction false} RunKeepsSettled(h: Heap, calls: seq<Call>)
    requires Settled(h)
    ensures Settled(Run(h, calls))
    decreases |calls|
  {
    hide Settled, Step;
    if calls != [] {
      StepKeepsSettled(h, calls[0]);
      RunKeepsSettled(Step(h, calls[0]), calls[1..]);
    }
  }

  /** The heap buddy_init and page_init leave behind. */
  ghost predicate Boot(h: Heap) {
    P.PagesInv(h.pages) && Unshared(h) && h.pages.buddy == {} && h.blocks == map[]
      && h.free == [[], [], [], [], [], [], [], []]
  }

  lemma BootIsSettled(h: Heap)
    requires Boot(h)
    ensures Settled(h)
  {
  }

  /**
   After any run from boot the blocks tile the buddy pages, no two free buddies
   stand side by side, free and used pages add up, and no two holders overlap.
   */
  lemma EveryRunIsSound(h: Heap, calls: seq<Call>)
    requires Boot(h)
    ensures Settled(h)
    ensures var r := Run(h, calls);
      && Inv(r)
      && |r.pages.ring| + |P.InUse(r.pages)| == r.pages.total
      && (forall p :: p in r.pages.buddy ==> exists a :: a in Live(r) && PageOf(a) == p)
      && forall ptr: nat, other: nat :: Held(r, ptr) && Held(r, other) && ptr != other ==>
           Extent(r, ptr).1 <= Extent(r, other).0 || Extent(r, other).1 <= Extent(r, ptr).0
  {
    BootIsSettled(h);
    RunKeepsSettled(h, calls);
    var r := Run(h, calls);
    hide Inv, Run;
    P.PagesConserved(r.pages) by { PagesOf(r); }
    forall p | p in r.pages.buddy ensures exists a :: a in Live(r) && PageOf(a) == p {
      NoPageWhollyFree(r, p);
    }
    forall ptr: nat, other: nat | Held(r, ptr) && Held(r, other) && ptr != other
      ensures Extent(r, ptr).1 <= Extent(r, other).0 || Extent(r, other).1 <= Extent(r, ptr).0
    {
      HeldExtentsApart(r, ptr, other);
    }
  }

  lemma PagesOf(h: Heap)
    requires Inv(h)
    ensures P.PagesInv(h.pages)
  {
  }

  /** Some held pointer points into every page the ring has given out. */
  lemma HolderOf(h: Heap, p: nat) returns (ptr: nat)
    requires Inv(h) && (p in h.pages.buddy || p in WholePages(h))
    ensures Held(h, ptr)
  {
    if p in h.pages.buddy {
      NoPageWhollyFree(h, p);
      var a :| a in Live(h) && PageOf(a) == p;
      ptr := a + HEADER;
    } else {
      PageBaseFacts(p);
      ptr := PageBase(p);
    }
  }

  /** Once every pointer is given back the free lists are empty and every page is on the ring again. */
  lemma NothingHeldNothingLost(h: Heap)
    requires Settled(h) && forall ptr: nat :: !Held(h, ptr)
    ensures h.blocks == map[] && h.pages.buddy == {} && |h.pages.ring| == h.pages.total
    ensures forall l :: 0 <= l <= MAX_LEVEL ==> h.free[l] == []
  {
    if p :| p in h.pages.buddy { var ptr := HolderOf(h, p); }
    if p :| p in WholePages(h) { var ptr := HolderOf(h, p); }
    NoPagesNoBlocks(h);
    assert P.InUse(h.pages) <= WholePages(h);
    P.PagesConserved(h.pages);
  }

  lemma NoPagesNoBlocks(h: Heap)
    requires Inv(h) && h.pages.buddy == {}
    ensures h.blocks == map[] && forall l :: 0 <= l <= MAX_LEVEL ==> h.free[l] == []
  {
    assert forall a: nat :: a !in h.blocks;
    forall l | 0 <= l <= MAX_LEVEL ensures h.free[l] == [] {
      assert forall a: nat :: a in h.free[l] ==> a in h.blocks;
      if h.free[l] != [] { SomeElement(h.free[l]); }
    }
  }

  lemma SomeElement(xs: seq<nat>)
    requires xs != []
    ensures exists a: nat :: a in xs
  {
    assert xs[0] in xs;
  }

  // ---------- the smallest machine ----------

  /** A heap at boot with a single free page. */
  function OnePage(): Heap {
    Heap([[], [], [], [], [], [], [], []], map[], P.PageState(1, {}, [0], map[0 := 0], {}, {}, 0, 0, 1))
  }

  lemma OnePageBoots()
    ensures Boot(OnePage()) && Settled(OnePage()) && OnePage().pages.ring != []
  {
    var s := OnePage().pages;
    assert P.Unreserved(s) == {0};
    BootIsSettled(OnePage());
  }

  /** 4294967295 bytes are asked for, and one block of 32 bytes is what comes back. */
  lemma WrappedRequestServed()
    ensures var h := OnePage();
      && Settled(h)
      && var r := Malloc(h, 0xFFFF_FFFF);
         && r.1 != NULL && Held(r.0, r.1) && Extent(r.0, r.1).1 - Extent(r.0, r.1).0 == 32
         && !(r.1 + 0xFFFF_FFFF <= Extent(r.0, r.1).1)
  {
    var h := OnePage();
    OnePageBoots();
    MallocMeetsSpec(h, 0xFFFF_FFFF);
    WrappedLevel();
    AllocMeetsSpec(h, 0);
    var h1, b := Alloc(h, 0).0, Alloc(h, 0).1;
    assert Live(h1)[b] == 0;
  }

  lemma WrappedLevel()
    ensures BuddyRoute(0xFFFF_FFFF) && RequestLevel(0xFFFF_FFFF) == 0
  {
  }

  // ---------- the split test as the source has it ----------

  /**
   buddy_alloc with the test of buddy.c:145 taken literally: a block that was
   found is returned unsplit, and a missing one is written through. The flag
   says whether that write happened.
   */
  function AllocAsWritten(h: Heap, level: nat): (Heap, nat, bool)
    requires |h.free| == MAX_LEVEL + 1 && level <= MAX_LEVEL
    decreases MAX_LEVEL - level
  {
    if level == MAX_LEVEL then (Alloc(h, level).0, Alloc(h, level).1, false)
    else if h.free[level] != [] then (Pop(h, level), h.free[level][0], false)
    else
      var (h1, b, fault) := AllocAsWritten(h, level + 1);
      (h1, b, fault || b == NULL)
  }

  /** Taken literally no call ever adds to a free list. */
  lemma {:induction false} AsWrittenAddsNothing(h: Heap, level: nat)
    requires |h.free| == MAX_LEVEL + 1 && level <= MAX_LEVEL
    ensures var h1 := AllocAsWritten(h, level).0;
      |h1.free| == MAX_LEVEL + 1 && forall l :: 0 <= l <= MAX_LEVEL ==> |h1.free[l]| <= |h.free[l]|
    ensures AllocAsWritten(h, level).1 == Alloc(h, level).1
    decreases MAX_LEVEL - level
  {
    if level < MAX_LEVEL && h.free[level] == [] {
      AsWrittenAddsNothing(h, level + 1);
    }
  }

  /** Taken literally the test does what its comment says iff no split is needed. */
  lemma AsWrittenIffNoSplit(h: Heap, level: nat)
    requires |h.free| == MAX_LEVEL + 1 && level <= MAX_LEVEL
    ensures AllocAsWritten(h, level) == (Alloc(h, level).0, Alloc(h, level).1, false)
      <==> level == MAX_LEVEL || h.free[level] != []
  {
    if level < MAX_LEVEL && h.free[level] == [] {
      AsWrittenAddsNothing(h, level);
      var b := Alloc(h, level + 1).1;
      AsWrittenAddsNothing(h, level + 1);
      assert b != NULL ==> Alloc(h, level).0.free[level] == [BuddyOf(b, level)];
    }
  }

  /** With nothing on the free lists the search always ends at a fresh page. */
  lemma {:induction false} AsWrittenTakesPage(h: Heap, level: nat)
    requires |h.free| == MAX_LEVEL + 1 && level <= MAX_LEVEL && h.pages.ring != []
    requires forall l :: 0 <= l < MAX_LEVEL ==> h.free[l] == []
    ensures AllocAsWritten(h, level) == (Alloc(h, MAX_LEVEL).0, Alloc(h, MAX_LEVEL).1, false)
    ensures Alloc(h, MAX_LEVEL).1 == PageBase(h.pages.ring[0])
    decreases MAX_LEVEL - level
  {
    if level < MAX_LEVEL {
      AsWrittenTakesPage(h, level + 1);
    }
  }

  /** The first small request after boot should get a block of its level and gets one of 4096 bytes. */
  lemma FirstRequestAsWritten(h: Heap, level: nat)
    requires Boot(h) && h.pages.ring != [] && level < MAX_LEVEL
    ensures var (h1, b, fault) := AllocAsWritten(h, level);
      && !fault && b != NULL && b in h1.blocks && h1.blocks[b] == Block(MAX_LEVEL, true)
      && Alloc(h, level).1 == b && b in Alloc(h, level).0.blocks && Alloc(h, level).0.blocks[b] == Block(level, true)
  {
    hide Inv, PageBase;
    BootIsSettled(h);
    AllocMeetsSpec(h, level);
    AsWrittenTakesPage(h, level);
    AsWrittenAddsNothing(h, level);
    assert Live(Alloc(h, level).0)[Alloc(h, level).1] == level;
  }
}
