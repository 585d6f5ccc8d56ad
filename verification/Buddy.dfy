/**
 The buddy allocator as a function on abstract heaps (kernel/src/mem/buddy.c).

 A heap lists, for every level, the free blocks in free-list order, and records
 every block it has carved out of its pages: its level and whether a caller
 holds it. A block on its way between two lists counts as held.
 */
module Buddy {
  import opened BuddyAddress
  import D = Dll
  import P = Pages

  datatype Block = Block(level: nat, live: bool)

  datatype Heap = Heap(free: seq<seq<nat>>, blocks: map<nat, Block>, pages: P.PageState)

  function Min(a: nat, b: nat): nat { if a <= b then a else b }

  // ---------- the steps ----------

  /** The head of a free list is handed out (buddy.c:136-139). */
  function Pop(h: Heap, level: nat): Heap
    requires level < |h.free| && h.free[level] != []
  {
    var b := h.free[level][0];
    h.(free := h.free[level := h.free[level][1..]], blocks := h.blocks[b := Block(level, true)])
  }

  /** A held block of the next level is split; its upper half becomes the free list (buddy.c:145-152). */
  function Split(h: Heap, b: nat, level: nat): Heap
    requires level < |h.free| && level < MAX_LEVEL
  {
    var buddy := BuddyOf(b, level);
    h.(free := h.free[level := [buddy]], blocks := h.blocks[b := Block(level, true)][buddy := Block(level, false)])
  }

  /** A page just taken from the page allocator becomes one held block (buddy.c:118-133). */
  function AdoptPage(h: Heap, ps: P.PageState, p: nat): Heap {
    h.(pages := ps.(buddy := ps.buddy + {p}), blocks := h.blocks[PageBase(p) := Block(MAX_LEVEL, true)])
  }

  /** A held block is prepended to its free list (buddy.c:93-107). */
  function Push(h: Heap, a: nat): Heap
    requires a in h.blocks && h.blocks[a].level < |h.free|
  {
    var level := h.blocks[a].level;
    h.(free := h.free[level := [a] + h.free[level]], blocks := h.blocks[a := Block(level, false)])
  }

  /** The free buddy of a held block leaves its free list (buddy.c:64-65). */
  function Unlist(h: Heap, a: nat): seq<seq<nat>>
    requires a in h.blocks && h.blocks[a].level < |h.free| && h.blocks[a].level < MAX_LEVEL
  {
    var level := h.blocks[a].level;
    h.free[level := D.Delete(h.free[level], BuddyOf(a, level))]
  }

  /** A held block and its free buddy become one held block of the next level (buddy.c:68-79). */
  function Merge(h: Heap, a: nat): Heap
    requires a in h.blocks && h.blocks[a].level < |h.free| && h.blocks[a].level < MAX_LEVEL
  {
    var level := h.blocks[a].level;
    var buddy := BuddyOf(a, level);
    h.(free := Unlist(h, a), blocks := (h.blocks - {a, buddy})[Min(a, buddy) := Block(level + 1, true)])
  }

  /** Both halves of a page are free again: the page goes back to the page allocator (buddy.c:82-89). */
  function ReturnPage(h: Heap, a: nat): Heap
    requires a in h.blocks && h.blocks[a].level < |h.free| && h.blocks[a].level < MAX_LEVEL
    requires a >= OFFSET && PageOf(a) in h.pages.usage
  {
    var buddy := BuddyOf(a, h.blocks[a].level);
    var ps := h.pages.(buddy := h.pages.buddy - {PageOf(a)});
    h.(free := Unlist(h, a), blocks := h.blocks - {a, buddy}, pages := P.Release(ps, PageOf(a)))
  }

  // ---------- the invariant ----------

  /** Free list `level` lists the free blocks of that level, each once. */
  ghost predicate ListsMatch(h: Heap) {
    && |h.free| == MAX_LEVEL + 1 && h.free[MAX_LEVEL] == []
    && (forall l :: 0 <= l <= MAX_LEVEL ==> D.NoDup(h.free[l]))
    && (forall l, a :: 0 <= l <= MAX_LEVEL && a in h.free[l] ==> a in h.blocks && h.blocks[a] == Block(l, false))
    && (forall a :: a in h.blocks && !h.blocks[a].live ==>
          h.blocks[a].level < MAX_LEVEL && a in h.free[h.blocks[a].level])
  }

  /** Every block lies in a page flagged PAGE_BUDDY and is aligned to its own size. */
  ghost predicate Placed(h: Heap) {
    forall a :: a in h.blocks ==>
      h.blocks[a].level <= MAX_LEVEL && a >= OFFSET && Aligned(a, h.blocks[a].level) && PageOf(a) in h.pages.buddy
  }

  function End(blocks: map<nat, Block>, a: nat): nat
    requires a in blocks
  {
    a + Size(blocks[a].level)
  }

  ghost predicate Disjoint(blocks: map<nat, Block>) {
    forall a, b :: a in blocks && b in blocks && a < b ==> End(blocks, a) <= b
  }

  ghost predicate Covered(blocks: map<nat, Block>, x: nat) {
    exists a :: a in blocks && a <= x < End(blocks, a)
  }

  /** Every byte of every PAGE_BUDDY page belongs to some block. */
  ghost predicate Covers(h: Heap) {
    forall x {:trigger Covered(h.blocks, x)} :: x >= OFFSET && PageOf(x) in h.pages.buddy ==> Covered(h.blocks, x)
  }

  /** Two free blocks are never each other's buddy. */
  ghost predicate NoFreePair(blocks: map<nat, Block>) {
    forall a, b :: a in blocks && b in blocks && blocks[a] == blocks[b] && !blocks[a].live
      && blocks[a].level < MAX_LEVEL
      ==> b != BuddyOf(a, blocks[a].level)
  }

  /** kmalloc never shares a page, so no reference count exceeds one. */
  ghost predicate Unshared(h: Heap) {
    forall p :: p in h.pages.usage ==> h.pages.usage[p] <= 1
  }

  ghost predicate Inv(h: Heap) {
    && P.PagesInv(h.pages)
    && Unshared(h)
    && ListsMatch(h)
    && Placed(h)
    && Disjoint(h.blocks)
    && Covers(h)
    && NoFreePair(h.blocks)
  }

  // ---------- each step keeps it ----------

  /** Marking one block held or free changes no extent. */
  ghost predicate Remarked(h: Heap, h': Heap, b: nat) {
    && b in h.blocks && h'.blocks == h.blocks[b := Block(h.blocks[b].level, !h.blocks[b].live)]
    && h'.pages == h.pages
  }

  lemma RemarkedDisjoint(h: Heap, h': Heap, b: nat)
    requires Disjoint(h.blocks) && Remarked(h, h', b)
    ensures Disjoint(h'.blocks)
  {
    forall c, d | c in h'.blocks && d in h'.blocks && c < d ensures End(h'.blocks, c) <= d {
      assert End(h'.blocks, c) == End(h.blocks, c);
    }
  }

  lemma RemarkedCovers(h: Heap, h': Heap, b: nat)
    requires Covers(h) && Remarked(h, h', b)
    ensures Covers(h')
  {
    forall x | x >= OFFSET && PageOf(x) in h'.pages.buddy ensures Covered(h'.blocks, x) {
      assert Covered(h.blocks, x);
      var a :| a in h.blocks && a <= x < End(h.blocks, a);
      assert a in h'.blocks && End(h'.blocks, a) == End(h.blocks, a);
    }
  }

  lemma PopKeepsInv(h: Heap, level: nat)
    requires Inv(h) && level < MAX_LEVEL && h.free[level] != []
    ensures Inv(Pop(h, level))
  {
    var h', b := Pop(h, level), h.free[level][0];
    assert b in h.free[level] && b in h.blocks && h.blocks[b] == Block(level, false);
    RemarkedDisjoint(h, h', b);
    RemarkedCovers(h, h', b);
    PopLists(h, level);
    assert NoFreePair(h'.blocks);
  }

  lemma HeadApart(xs: seq<nat>)
    requires D.NoDup(xs) && xs != []
    ensures D.NoDup(xs[1..]) && xs[0] in xs && xs[0] !in xs[1..] && forall a :: a in xs <==> a == xs[0] || a in xs[1..]
  {
  }

  lemma PopLists(h: Heap, level: nat)
    requires ListsMatch(h) && level < MAX_LEVEL && h.free[level] != []
    ensures ListsMatch(Pop(h, level))
  {
    hide D.NoDup;
    var h', b := Pop(h, level), h.free[level][0];
    HeadApart(h.free[level]);
    assert h.blocks[b] == Block(level, false);
    forall l, a | 0 <= l <= MAX_LEVEL && a in h'.free[l] ensures a in h'.blocks && h'.blocks[a] == Block(l, false) {
      assert a in h.free[l];
    }
    forall a | a in h'.blocks && !h'.blocks[a].live
      ensures h'.blocks[a].level < MAX_LEVEL && a in h'.free[h'.blocks[a].level]
    {
      assert a in h.free[h.blocks[a].level];
    }
  }

  lemma PushKeepsInv(h: Heap, a: nat)
    requires Inv(h) && a in h.blocks && h.blocks[a].live && h.blocks[a].level < MAX_LEVEL
    requires BuddyOf(a, h.blocks[a].level) !in h.free[h.blocks[a].level]
    ensures Inv(Push(h, a))
  {
    var h' := Push(h, a);
    RemarkedDisjoint(h, h', a);
    RemarkedCovers(h, h', a);
    PushLists(h, a);
    PushNoPair(h, a);
  }

  lemma PushLists(h: Heap, a: nat)
    requires ListsMatch(h) && a in h.blocks && h.blocks[a].live && h.blocks[a].level < MAX_LEVEL
    ensures ListsMatch(Push(h, a))
  {
    assert a !in h.free[h.blocks[a].level];
  }

  lemma PushNoPair(h: Heap, a: nat)
    requires ListsMatch(h) && Placed(h) && NoFreePair(h.blocks)
    requires a in h.blocks && h.blocks[a].live && h.blocks[a].level < MAX_LEVEL
    requires BuddyOf(a, h.blocks[a].level) !in h.free[h.blocks[a].level]
    ensures NoFreePair(Push(h, a).blocks)
  {
    var blocks := Push(h, a).blocks;
    forall c, b | c in blocks && b in blocks && blocks[c] == blocks[b] && !blocks[c].live && blocks[c].level < MAX_LEVEL
      ensures b != BuddyOf(c, blocks[c].level)
    {
      if b == BuddyOf(c, blocks[c].level) {
        BuddyPairs(c, blocks[c].level);
      }
    }
  }

  lemma SplitKeepsInv(h: Heap, b: nat, level: nat)
    requires Inv(h) && level < MAX_LEVEL && b in h.blocks && h.blocks[b] == Block(level + 1, true)
    requires h.free[level] == []
    ensures Inv(Split(h, b, level))
  {
    SplitPlaced(h, b, level);
    SplitDisjoint(h, b, level);
    SplitCovers(h, b, level);
    SplitLists(h, b, level);
    SplitNoPair(h, b, level);
  }

  lemma SplitPlaced(h: Heap, b: nat, level: nat)
    requires Placed(h) && level < MAX_LEVEL && level < |h.free| && b in h.blocks && h.blocks[b].level == level + 1
    ensures BuddyOf(b, level) == b + Size(level)
    ensures Placed(Split(h, b, level))
  {
    MultipleOf(b, level, level + 1);
    BuddyPairs(b, level);
  }

  lemma SplitDisjoint(h: Heap, b: nat, level: nat)
    requires Placed(h) && Disjoint(h.blocks)
    requires level < MAX_LEVEL && level < |h.free| && b in h.blocks && h.blocks[b].level == level + 1
    ensures Disjoint(Split(h, b, level).blocks)
    ensures BuddyOf(b, level) !in h.blocks
  {
    var blocks, buddy := Split(h, b, level).blocks, BuddyOf(b, level);
    SplitPlaced(h, b, level);
    SizeDoubles(level);
    assert End(h.blocks, b) == End(blocks, buddy);
    forall c, d | c in blocks && d in blocks && c < d ensures End(blocks, c) <= d {
      assert c != b && c != buddy ==> c in h.blocks && End(blocks, c) == End(h.blocks, c);
      assert d != buddy ==> d in h.blocks;
    }
  }

  lemma SplitCovers(h: Heap, b: nat, level: nat)
    requires Placed(h) && Covers(h) && Disjoint(h.blocks)
    requires level < MAX_LEVEL && level < |h.free| && b in h.blocks && h.blocks[b].level == level + 1
    ensures Covers(Split(h, b, level))
  {
    var h', buddy := Split(h, b, level), BuddyOf(b, level);
    SplitPlaced(h, b, level);
    SplitDisjoint(h, b, level);
    SizeDoubles(level);
    assert End(h'.blocks, b) == buddy && End(h'.blocks, buddy) == End(h.blocks, b);
    forall x | x >= OFFSET && PageOf(x) in h'.pages.buddy ensures Covered(h'.blocks, x) {
      assert Covered(h.blocks, x);
      var a :| a in h.blocks && a <= x < End(h.blocks, a);
      if a != b {
        assert End(h'.blocks, a) == End(h.blocks, a);
        assert a in h'.blocks;
      } else if x < buddy {
        assert b in h'.blocks;
      } else {
        assert buddy in h'.blocks;
      }
    }
  }

  lemma SplitLists(h: Heap, b: nat, level: nat)
    requires ListsMatch(h) && level < MAX_LEVEL && h.free[level] == []
    requires b in h.blocks && h.blocks[b].live && b != BuddyOf(b, level) && BuddyOf(b, level) !in h.blocks
    ensures ListsMatch(Split(h, b, level))
  {
    var h' := Split(h, b, level);
    forall a | a in h'.blocks && !h'.blocks[a].live
      ensures h'.blocks[a].level < MAX_LEVEL && a in h'.free[h'.blocks[a].level]
    {
      assert a != BuddyOf(b, level) ==> a in h.blocks && a in h.free[h.blocks[a].level];
    }
  }

  lemma SplitNoPair(h: Heap, b: nat, level: nat)
    requires Placed(h) && ListsMatch(h) && NoFreePair(h.blocks) && level < MAX_LEVEL && h.free[level] == []
    requires b in h.blocks && h.blocks[b] == Block(level + 1, true)
    ensures NoFreePair(Split(h, b, level).blocks)
  {
    var blocks, buddy := Split(h, b, level).blocks, BuddyOf(b, level);
    MultipleOf(b, level, level + 1);
    BuddyPairs(b, level);
    assert forall a :: a in h.blocks && h.blocks[a] == Block(level, false) ==> a in h.free[level];
    forall c, d | c in blocks && d in blocks && blocks[c] == blocks[d] && !blocks[c].live && blocks[c].level < MAX_LEVEL
      ensures d != BuddyOf(c, blocks[c].level)
    {
      assert c == buddy || d == buddy ==> c == d;
    }
  }

  /** `a` is held, its buddy is free, and together they span one block of the next level. */
  ghost predicate Mergeable(h: Heap, a: nat) {
    && |h.free| == MAX_LEVEL + 1
    && a in h.blocks && h.blocks[a].live && h.blocks[a].level < MAX_LEVEL
    && BuddyOf(a, h.blocks[a].level) in h.free[h.blocks[a].level]
  }

  lemma PairSpan(h: Heap, a: nat)
    requires Placed(h) && ListsMatch(h) && Mergeable(h, a)
    ensures Paired(h, a)
  {
    var level := h.blocks[a].level;
    var b: nat := BuddyOf(a, level);
    BuddyPairs(a, level);
    SizeDoubles(level);
    assert h.blocks[b] == Block(level, false);
    assert End(h.blocks, a) == a + Size(level) && End(h.blocks, b) == b + Size(level);
  }

  ghost predicate Paired(h: Heap, a: nat)
    requires a in h.blocks && h.blocks[a].level < MAX_LEVEL
  {
    var level := h.blocks[a].level;
    var b := BuddyOf(a, level);
    var lower := Min(a, b);
    && b in h.blocks && h.blocks[b] == Block(level, false) && a != b
    && Aligned(lower, level + 1) && lower >= OFFSET && a >= OFFSET && PageOf(lower) == PageOf(a) == PageOf(b)
    && End(h.blocks, lower) == a + b - lower
    && End(h.blocks, a + b - lower) == lower + Size(level + 1)
  }

  lemma UnlistLists(h: Heap, h': Heap, a: nat)
    requires ListsMatch(h) && Mergeable(h, a)
    requires h'.free == Unlist(h, a)
    requires forall c :: c in h'.blocks && !h'.blocks[c].live ==> c in h.blocks && h'.blocks[c] == h.blocks[c]
    requires var b := BuddyOf(a, h.blocks[a].level);
      && (b in h'.blocks ==> h'.blocks[b].live)
      && forall c :: c in h.blocks && c != a && c != b ==> c in h'.blocks && h'.blocks[c] == h.blocks[c]
    ensures ListsMatch(h')
  {
    var level := h.blocks[a].level;
    var b := BuddyOf(a, level);
    D.DeleteFacts(h.free[level], b);
    forall l, c | 0 <= l <= MAX_LEVEL && c in h'.free[l] ensures c in h'.blocks && h'.blocks[c] == Block(l, false) {
      assert c in h.free[l];
      assert h.blocks[b] == Block(level, false);
    }
    assert h.free[MAX_LEVEL] == [];
  }

  lemma MergeKeepsInv(h: Heap, a: nat)
    requires Inv(h) && Mergeable(h, a) && h.blocks[a].level < MAX_LEVEL - 1
    ensures Inv(Merge(h, a))
  {
    PairSpan(h, a);
    UnlistLists(h, Merge(h, a), a);
    MergeDisjoint(h, a);
    MergeCovers(h, a);
  }

  lemma MergeDisjoint(h: Heap, a: nat)
    requires Disjoint(h.blocks) && Mergeable(h, a) && Paired(h, a)
    ensures Disjoint(Merge(h, a).blocks)
  {
    hide Size, PageOf, Aligned;
    var blocks, b := Merge(h, a).blocks, BuddyOf(a, h.blocks[a].level);
    var lower := Min(a, b);
    var upper := a + b - lower;
    assert End(blocks, lower) == End(h.blocks, upper);
    forall c, d | c in blocks && d in blocks && c < d ensures End(blocks, c) <= d {
      if c == lower {
        assert d in h.blocks && d != upper;
        assert End(h.blocks, lower) <= d;
        assert End(h.blocks, upper) <= d;
      } else {
        assert c in h.blocks && End(blocks, c) == End(h.blocks, c);
      }
    }
  }

  lemma MergeCovers(h: Heap, a: nat)
    requires Covers(h) && Mergeable(h, a) && Paired(h, a)
    ensures Covers(Merge(h, a))
  {
    var h', b := Merge(h, a), BuddyOf(a, h.blocks[a].level);
    var lower := Min(a, b);
    assert End(h'.blocks, lower) == End(h.blocks, a + b - lower);
    forall x | x >= OFFSET && PageOf(x) in h'.pages.buddy ensures Covered(h'.blocks, x) {
      assert Covered(h.blocks, x);
      var c :| c in h.blocks && c <= x < End(h.blocks, c);
      if c == a || c == b {
        assert lower in h'.blocks;
      } else {
        assert c in h'.blocks && End(h'.blocks, c) == End(h.blocks, c);
      }
    }
  }

  lemma ReturnPageKeepsInv(h: Heap, a: nat)
    requires Inv(h) && Mergeable(h, a) && h.blocks[a].level == MAX_LEVEL - 1
    ensures a >= OFFSET && PageOf(a) in h.pages.usage && Inv(ReturnPage(h, a))
  {
    ReturnPagePages(h, PageOf(a));
    UnlistLists(h, ReturnPage(h, a), a);
    ReturnPageExtents(h, a);
    FewerBlocks(h.blocks, ReturnPage(h, a).blocks);
  }

  lemma ReturnPageExtents(h: Heap, a: nat)
    requires ListsMatch(h) && Placed(h) && Disjoint(h.blocks) && Covers(h)
    requires Mergeable(h, a) && h.blocks[a].level == MAX_LEVEL - 1
    requires PageOf(a) in h.pages.usage && h.pages.usage[PageOf(a)] == 1
    ensures Placed(ReturnPage(h, a)) && Covers(ReturnPage(h, a))
  {
    PairSpan(h, a);
    ReturnPagePlaced(h, a);
    ReturnPageCovers(h, a);
  }

  lemma ReturnPagePages(h: Heap, p: nat)
    requires P.PagesInv(h.pages) && Unshared(h) && p in h.pages.buddy
    ensures p in h.pages.usage && h.pages.usage[p] == 1
    ensures var ps := P.Release(h.pages.(buddy := h.pages.buddy - {p}), p);
      P.PagesInv(ps) && ps.buddy == h.pages.buddy - {p} && forall q :: q in ps.usage ==> ps.usage[q] <= 1
  {
    var ps := h.pages.(buddy := h.pages.buddy - {p});
    assert P.Unreserved(ps) == P.Unreserved(h.pages);
    P.ReleaseKeepsInv(ps, p);
  }

  lemma FewerBlocks(blocks: map<nat, Block>, smaller: map<nat, Block>)
    requires Disjoint(blocks) && NoFreePair(blocks)
    requires forall c :: c in smaller ==> c in blocks && smaller[c] == blocks[c]
    ensures Disjoint(smaller) && NoFreePair(smaller)
  {
    forall c, d | c in smaller && d in smaller && c < d ensures End(smaller, c) <= d {
      assert End(smaller, c) == End(blocks, c);
    }
  }

  /** The two halves of a page leave no room for a third block in it. */
  lemma ReturnPagePlaced(h: Heap, a: nat)
    requires Placed(h) && Disjoint(h.blocks) && Mergeable(h, a) && h.blocks[a].level == MAX_LEVEL - 1 && Paired(h, a)
    ensures forall c :: c in h.blocks && c != a && c != BuddyOf(a, h.blocks[a].level) ==> PageOf(c) != PageOf(a)
  {
    hide Size, PageOf, PageBase, Aligned;
    var b := BuddyOf(a, h.blocks[a].level);
    var lower := Min(a, b);
    var upper := a + b - lower;
    SizePositive(MAX_LEVEL);
    BlockInPage(lower, MAX_LEVEL);
    assert upper in h.blocks && lower in h.blocks;
    forall c | c in h.blocks && c != a && c != b ensures PageOf(c) != PageOf(a) {
      BlockInPage(c, h.blocks[c].level);
      SizePositive(h.blocks[c].level);
      OutsidePair(h.blocks, lower, upper, c);
    }
  }

  lemma OutsidePair(blocks: map<nat, Block>, lower: nat, upper: nat, c: nat)
    requires Disjoint(blocks) && lower in blocks && upper in blocks && c in blocks
    requires End(blocks, lower) == upper && c != lower && c != upper
    ensures End(blocks, c) <= lower || End(blocks, upper) <= c
  {
  }

  lemma ReturnPageCovers(h: Heap, a: nat)
    requires Placed(h) && Covers(h) && Mergeable(h, a) && h.blocks[a].level == MAX_LEVEL - 1 && Paired(h, a)
    requires PageOf(a) in h.pages.usage && h.pages.usage[PageOf(a)] == 1
    ensures Covers(ReturnPage(h, a))
  {
    var h', b := ReturnPage(h, a), BuddyOf(a, h.blocks[a].level);
    forall x | x >= OFFSET && PageOf(x) in h'.pages.buddy ensures Covered(h'.blocks, x) {
      assert Covered(h.blocks, x);
      var c :| c in h.blocks && c <= x < End(h.blocks, c);
      BlockInPage(c, h.blocks[c].level);
      assert PageOf(x) == PageOf(c);
      assert c in h'.blocks && End(h'.blocks, c) == End(h.blocks, c);
    }
  }

  lemma AdoptPageKeepsInv(h: Heap)
    requires Inv(h) && h.pages.ring != []
    ensures var (ps, p) := P.Get(h.pages); p >= 0 && Inv(AdoptPage(h, ps, p)) && PageBase(p) !in h.blocks
  {
    var ps, p := P.Get(h.pages).0, P.Get(h.pages).1;
    AdoptPagePages(h);
    var h' := AdoptPage(h, ps, p);
    AdoptPageBlocks(h, h', p);
    AdoptPageDisjoint(h, h', p);
    AdoptPageCovers(h, h', p);
  }

  lemma AdoptPageBlocks(h: Heap, h': Heap, p: nat)
    requires ListsMatch(h) && Placed(h) && NoFreePair(h.blocks) && p !in h.pages.buddy
    requires h'.free == h.free && h'.blocks == h.blocks[PageBase(p) := Block(MAX_LEVEL, true)]
    requires h'.pages.buddy == h.pages.buddy + {p}
    ensures PageBase(p) !in h.blocks && ListsMatch(h') && Placed(h') && NoFreePair(h'.blocks)
  {
    PageBaseFacts(p);
  }

  lemma AdoptPagePages(h: Heap)
    requires P.PagesInv(h.pages) && Unshared(h) && h.pages.ring != []
    ensures var (ps, p) := P.Get(h.pages);
      && p >= 0 && p !in h.pages.buddy && P.PagesInv(ps.(buddy := ps.buddy + {p})) && ps.buddy == h.pages.buddy
      && forall q :: q in ps.usage ==> ps.usage[q] <= 1
  {
    var (ps, p) := P.Get(h.pages);
    P.GetKeepsInv(h.pages);
    assert p in h.pages.ring;
    assert P.Unreserved(ps.(buddy := ps.buddy + {p})) == P.Unreserved(ps);
  }

  lemma ApartFromPage(h: Heap, p: nat)
    requires Placed(h) && p !in h.pages.buddy
    ensures forall c :: c in h.blocks ==> PageBase(p) + PAGE <= c || End(h.blocks, c) <= PageBase(p)
  {
    forall c | c in h.blocks ensures PageBase(p) + PAGE <= c || End(h.blocks, c) <= PageBase(p) {
      BlockInPage(c, h.blocks[c].level);
    }
  }

  lemma AdoptPageDisjoint(h: Heap, h': Heap, p: nat)
    requires Placed(h) && Disjoint(h.blocks) && p !in h.pages.buddy
    requires h'.blocks == h.blocks[PageBase(p) := Block(MAX_LEVEL, true)]
    ensures Disjoint(h'.blocks)
  {
    var base := PageBase(p);
    assert PageOf(base) == p;
    ApartFromPage(h, p);
    assert End(h'.blocks, base) == base + PAGE;
    forall c, d | c in h'.blocks && d in h'.blocks && c < d ensures End(h'.blocks, c) <= d {
      if c != base { assert End(h'.blocks, c) == End(h.blocks, c); }
    }
  }

  lemma AdoptPageCovers(h: Heap, h': Heap, p: nat)
    requires Placed(h) && Covers(h) && p !in h.pages.buddy
    requires h'.blocks == h.blocks[PageBase(p) := Block(MAX_LEVEL, true)]
    requires h'.pages.buddy == h.pages.buddy + {p}
    ensures Covers(h')
  {
    var base := PageBase(p);
    forall x | x >= OFFSET && PageOf(x) in h'.pages.buddy ensures Covered(h'.blocks, x) {
      if PageOf(x) == p {
        assert base in h'.blocks && base <= x < End(h'.blocks, base);
      } else {
        assert Covered(h.blocks, x);
        var c :| c in h.blocks && c <= x < End(h.blocks, c);
        assert PageOf(base) == p && c != base;
        assert c in h'.blocks && End(h'.blocks, c) == End(h.blocks, c);
      }
    }
  }
}
