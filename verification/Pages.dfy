/**
 The physical page allocator (kernel/src/mem/page.c): a circular doubly linked
 ring of free pages threaded through the page table entries.
 */
module Pages {
  import opened Dll

  const NONE: int := -1
  const NUM_BUFFER_RECLAIM: int := 250
  const FREE_PAGES_RATIO: int := 5

  /**
   The abstract allocator. `ring` lists the free pages from the head pointer on,
   `buddy` holds the pages flagged PAGE_BUDDY and `cached` those with an inode.
   */
  datatype PageState = PageState(
    count: nat, reserved: set<nat>, ring: seq<nat>, usage: map<nat, nat>,
    buddy: set<nat>, cached: set<nat>, minFree: int, reclaimed: int, total: nat)

  function Elements(xs: seq<nat>): set<nat> {
    set a | a in xs
  }

  function Unreserved(s: PageState): set<nat> {
    set p | 0 <= p < s.count && p !in s.reserved
  }

  function InUse(s: PageState): set<nat>
    requires PagesWellFormed(s)
  {
    set p | 0 <= p < s.count && p !in s.reserved && s.usage[p] > 0
  }

  ghost predicate PagesWellFormed(s: PageState) {
    forall p :: p in s.usage <==> 0 <= p < s.count
  }

  /** The ring holds exactly the unreserved pages nobody uses. */
  ghost predicate PagesInv(s: PageState) {
    && PagesWellFormed(s)
    && NoDup(s.ring)
    && (forall p :: p in s.ring <==> p in s.usage && p !in s.reserved && s.usage[p] == 0)
    && (forall p :: p in s.reserved && p in s.usage ==> s.usage[p] == 0)
    && (forall p :: p in s.buddy ==> p in s.usage && p !in s.reserved && s.usage[p] == 1)
    && s.total == |Unreserved(s)|
  }

  /** The low-memory threshold after one request (page.c:130-151). */
  function NextMinFree(s: PageState): int {
    if |s.ring| <= s.minFree then
      if s.minFree - NUM_BUFFER_RECLAIM < 0 then 0 else s.minFree - NUM_BUFFER_RECLAIM
    else if s.minFree == 0 && |s.ring| > NUM_BUFFER_RECLAIM then s.total * FREE_PAGES_RATIO / 100
    else s.minFree
  }

  /** The effect of one request on the abstract state: the head of the ring, if any, is handed out. */
  function Get(s: PageState): (PageState, int) {
    if s.ring == [] then
      (if 0 <= s.minFree && s.reclaimed == 0 then s else s.(minFree := NextMinFree(s)), NONE)
    else
      var p := s.ring[0];
      (s.(ring := s.ring[1..], usage := s.usage[p := 1], cached := s.cached - {p}, minFree := NextMinFree(s)), p)
  }

  /** Dropping one reference to page `p`; the last one puts it back on the ring. */
  function Release(s: PageState, p: nat): PageState
    requires p in s.usage
  {
    if s.usage[p] == 0 then s
    else if s.usage[p] > 1 then s.(usage := s.usage[p := s.usage[p] - 1])
    else s.(usage := s.usage[p := 0], buddy := s.buddy - {p},
            ring := if p in s.cached then s.ring + [p] else [p] + s.ring)
  }

  lemma GetKeepsInv(s: PageState)
    requires PagesInv(s)
    ensures PagesInv(Get(s).0)
    ensures Get(s).1 == NONE <==> s.ring == []
  {
    if s.ring != [] {
      var s', p := Get(s).0, s.ring[0];
      assert Unreserved(s') == Unreserved(s);
      assert s.ring == [p] + s'.ring;
      assert p in s.ring;
    }
  }

  lemma UsedIsNotFree(s: PageState, p: nat)
    requires PagesInv(s) && p in s.usage
    ensures NoDup(s.ring) && (s.usage[p] != 0 ==> p !in s.ring)
  {
  }

  lemma ReleaseKeepsInv(s: PageState, p: nat)
    requires PagesInv(s) && p in s.usage
    ensures PagesInv(Release(s, p))
  {
    var s' := Release(s, p);
    assert Unreserved(s') == Unreserved(s);
    if s.usage[p] == 1 {
      assert p !in s.ring;
    }
  }

  lemma NoDupSize(xs: seq<nat>)
    requires NoDup(xs)
    ensures |Elements(xs)| == |xs|
  {
    if xs == [] {
    } else {
      NoDupSize(xs[1..]);
      assert xs == [xs[0]] + xs[1..];
      assert Elements(xs) == {xs[0]} + Elements(xs[1..]);
    }
  }

  /** Free pages plus pages in use always make up the pages counted at boot. */
  lemma PagesConserved(s: PageState)
    requires PagesInv(s)
    ensures |s.ring| + |InUse(s)| == s.total
  {
    NoDupSize(s.ring);
    assert Elements(s.ring) !! InUse(s);
    assert Elements(s.ring) + InUse(s) == Unreserved(s);
  }

  /** A page released twice is as free as one released once. */
  lemma DoubleReleaseIsNoOp(s: PageState, p: nat)
    requires p in s.usage && s.usage[p] <= 1
    ensures Release(Release(s, p), p) == Release(s, p)
  {
  }

  /** Handing out a page and taking it straight back restores the ring, in order. */
  lemma GetThenRelease(s: PageState)
    requires PagesInv(s) && s.ring != []
    ensures var (s1, p) := Get(s);
      && p in s1.usage
      && Release(s1, p).(minFree := s.minFree, cached := s.cached) == s
      && Release(s1, p).cached == s.cached - {p}
  {
    var (s1, p) := Get(s);
    assert s.ring == [p] + s1.ring;
    assert s1.usage[p := 0] == s.usage;
    assert p !in s.buddy;
  }

  /**
   The low-memory threshold: a request that finds no more free pages than that lowers it
   by 250, not below 0; one that finds more than 250 resets it from 0 to a twentieth of
   all pages. Only a request that fails for good leaves it as it is.
   */
  lemma ThresholdMoves(s: PageState)
    ensures var (r, p) := Get(s);
      && (|s.ring| <= s.minFree && !(|s.ring| == 0 && s.reclaimed == 0) ==>
            r.minFree == if s.minFree < 250 then 0 else s.minFree - 250)
      && (|s.ring| > s.minFree && s.minFree == 0 && |s.ring| > 250 ==> r.minFree == s.total * 5 / 100)
      && (|s.ring| > s.minFree && (s.minFree != 0 || |s.ring| <= 250) ==> r.minFree == s.minFree)
      && (s.minFree >= 0 && |s.ring| == 0 && s.reclaimed == 0 ==> r == s)
  {
  }

  /** A request hands out the page at the head, once used and with no inode, and touches no other page. */
  lemma GetTakesHead(s: PageState)
    requires s.ring != []
    ensures var (r, p) := Get(s);
      && p == s.ring[0] && r.ring == s.ring[1..] && r.usage == s.usage[s.ring[0] := 1]
      && r.cached == s.cached - {s.ring[0]}
      && r.reserved == s.reserved && r.buddy == s.buddy && r.count == s.count && r.total == s.total
  {
  }

  /** Only the last reference brings a page back: to the tail if it has an inode, to the head otherwise. */
  lemma ReleaseDropsOne(s: PageState, p: nat)
    requires p in s.usage
    ensures var r := Release(s, p);
      && r.usage == s.usage[p := if s.usage[p] == 0 then 0 else s.usage[p] - 1]
      && (s.usage[p] != 1 ==> r.ring == s.ring && r.buddy == s.buddy)
      && (s.usage[p] == 1 ==>
            r.buddy == s.buddy - {p} && r.ring == if p in s.cached then s.ring + [p] else [p] + s.ring)
      && r.reserved == s.reserved && r.cached == s.cached && r.minFree == s.minFree && r.total == s.total
  {
  }
}
