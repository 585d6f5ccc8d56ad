/** Block sizes and the XOR addressing of buddies (kernel/src/mem/buddy.c:12-26). */
module BuddyAddress {
  /** BUDDY_MAX_LEVEL: the level of a whole page. */
  const MAX_LEVEL: nat := 7
  const PAGE: nat := 4096
  /** KERNEL_PAGE_OFFSET, where physical address 0 is mapped. */
  const OFFSET: nat := 0xC0000000

  const BLOCKSIZES: seq<nat> := [32, 64, 128, 256, 512, 1024, 2048, 4096]

  function Size(level: nat): nat {
    if level == 0 then 32 else if level == 1 then 64 else if level == 2 then 128 else if level == 3 then 256
    else if level == 4 then 512 else if level == 5 then 1024 else if level == 6 then 2048 else 4096
  }

  function Pow2(k: nat): nat {
    if k == 0 then 1 else 2 * Pow2(k - 1)
  }

  /** Bitwise exclusive or of two machine words, bit by bit. */
  function Xor(a: nat, b: nat): nat
    decreases a + b
  {
    if a == 0 then b
    else if b == 0 then a
    else 2 * Xor(a / 2, b / 2) + if a % 2 == b % 2 then 0 else 1
  }

  /** The address of a block's buddy: the level bit flipped. */
  function BuddyOf(a: nat, level: nat): nat
    requires level < MAX_LEVEL
  {
    Xor(a, Pow2(level + 5))
  }

  lemma CancelFactor(m: int, x: int, y: int)
    requires m > 0 && m * x < m * y
    ensures x < y
  {
  }

  lemma QuotientIs(x: nat, m: nat, q: int, r: nat)
    requires r < m && x == m * q + r
    ensures x / m == q && x % m == r
  {
    CancelFactor(m, q, x / m + 1);
    CancelFactor(m, x / m, q + 1);
  }

  lemma HalfQuotient(a: nat, m: nat)
    requires m > 0
    ensures a / 2 / m == a / (2 * m)
  {
    var q, r := a / (2 * m), a % (2 * m);
    assert a == 2 * (m * q) + r;
    QuotientIs(a / 2, m, q, r / 2);
  }

  /** XOR with a power of two adds it when that bit is clear and subtracts it when it is set. */
  lemma {:induction false} XorFlipsOneBit(a: nat, k: nat)
    ensures Pow2(k) > 0
    ensures Xor(a, Pow2(k)) == if a / Pow2(k) % 2 == 0 then a + Pow2(k) else a - Pow2(k)
  {
    if k == 0 {
      assert Xor(a / 2, 0) == a / 2;
    } else if a == 0 {
      XorFlipsOneBit(a, k - 1);
    } else {
      XorFlipsOneBit(a / 2, k - 1);
      HalfQuotient(a, Pow2(k - 1));
      assert Pow2(k) / 2 == Pow2(k - 1) && Pow2(k) % 2 == 0;
    }
  }

  lemma SizeIsPow2(level: nat)
    requires level <= MAX_LEVEL
    ensures Size(level) == BLOCKSIZES[level] == Pow2(level + 5)
  {
    assert Pow2(5) == 32 by { assert Pow2(2) == 4; }
    if level > 0 {
      SizeIsPow2(level - 1);
    }
  }

  lemma SizeDoubles(level: nat)
    requires level < MAX_LEVEL
    ensures Size(level + 1) == 2 * Size(level)
  {
  }

  /** The page an address of the kernel window lies in. */
  function PageOf(a: nat): nat
    requires a >= OFFSET
  {
    (a - OFFSET) / PAGE
  }

  function PageBase(p: nat): nat {
    OFFSET + p * PAGE
  }

  predicate Aligned(a: nat, level: nat) {
    a % Size(level) == 0
  }

  /** Buddies pair up the two halves of one block of the next level. */
  lemma BuddyPairs(a: nat, level: nat)
    requires level < MAX_LEVEL && Aligned(a, level) && a >= OFFSET
    ensures var b := BuddyOf(a, level);
      && Aligned(b, level) && b >= OFFSET && b != a && BuddyOf(b, level) == a
      && b == (if Aligned(a, level + 1) then a + Size(level) else a - Size(level))
      && (Aligned(a, level + 1) <==> !Aligned(b, level + 1))
      && PageOf(b) == PageOf(a)
  {
    SizeIsPow2(level);
    XorFlipsOneBit(a, level + 5);
    var b := BuddyOf(a, level);
    FlipFacts(a, level);
    XorFlipsOneBit(b, level + 5);
  }

  /** An aligned block lies within one page. */
  lemma BlockInPage(a: nat, level: nat)
    requires level <= MAX_LEVEL && Aligned(a, level) && a >= OFFSET
    ensures PageBase(PageOf(a)) <= a && a + Size(level) <= PageBase(PageOf(a)) + PAGE
  {
    hide Size, PageOf, PageBase, Aligned;
    var p := PageOf(a);
    PageBaseFacts(p);
    PageAround(a);
    MultipleOf(PageBase(p), level, MAX_LEVEL);
    SizePositive(level);
    WholeUnits(a, PageBase(p), level);
    Straddle(a, PageBase(p), Size(level), PAGE);
  }

  lemma PageAround(a: nat)
    requires a >= OFFSET
    ensures PageBase(PageOf(a)) <= a < PageBase(PageOf(a)) + PAGE
  {
  }

  lemma SizePositive(level: nat)
    ensures Size(level) > 0 && Size(MAX_LEVEL) == PAGE
  {
  }

  lemma WholeUnits(a: nat, c: nat, level: nat)
    requires Aligned(a, level) && Aligned(c, level)
    ensures Size(level) > 0 && a % Size(level) == 0 && c % Size(level) == 0
  {
  }

  lemma FlipFacts(a: nat, level: nat)
    requires level < MAX_LEVEL && Aligned(a, level) && a >= OFFSET
    ensures a / Size(level) % 2 == 0 <==> Aligned(a, level + 1)
    ensures var b := if a / Size(level) % 2 == 0 then a + Size(level) else a - Size(level);
      && b >= OFFSET && Aligned(b, level) && PageOf(b) == PageOf(a)
      && (b / Size(level) % 2 == 0 <==> a / Size(level) % 2 != 0)
      && (Aligned(b, level + 1) <==> !Aligned(a, level + 1))
  {
    var n := Size(level);
    var q := a / n;
    assert a == n * q;
    SizeDoubles(level);
    if q % 2 == 0 {
      HalvesOf(a, level, q / 2);
    } else {
      HalvesOf(a - n, level, q / 2);
    }
  }

  /** The two halves of a block of level + 1 that starts at `a`, its `i`-th multiple. */
  lemma HalvesOf(a: int, level: nat, i: nat)
    requires level < MAX_LEVEL && a == 2 * Size(level) * i && a + Size(level) >= OFFSET
    ensures a >= OFFSET && PageOf(a + Size(level)) == PageOf(a)
    ensures Aligned(a, level + 1) && Aligned(a, level) && a / Size(level) % 2 == 0
    ensures var b := a + Size(level); Aligned(b, level) && b / Size(level) % 2 == 1 && !Aligned(b, level + 1)
  {
    SizeDoubles(level);
    HalvesArithmetic(a, Size(level), i);
    UpperHalfPage(a, level);
  }

  lemma HalvesArithmetic(a: int, n: nat, i: nat)
    requires n > 0 && a == 2 * n * i
    ensures a % (2 * n) == 0 && a % n == 0 && a / n == 2 * i
    ensures (a + n) % n == 0 && (a + n) / n == 2 * i + 1 && (a + n) % (2 * n) == n
  {
    QuotientIs(a, 2 * n, i, 0);
    QuotientIs(a + n, 2 * n, i, n);
    QuotientIs(a, n, 2 * i, 0);
    QuotientIs(a + n, n, 2 * i + 1, 0);
  }

  lemma UpperHalfPage(a: nat, level: nat)
    requires level < MAX_LEVEL && Aligned(a, level + 1) && a + Size(level) >= OFFSET
    ensures a >= OFFSET && PageOf(a + Size(level)) == PageOf(a)
  {
    SizeDoubles(level);
    MultipleOf(OFFSET, level + 1, MAX_LEVEL);
    if a < OFFSET {
      Straddle(a, OFFSET, Size(level + 1), Size(level + 1));
    }
    BlockInPage(a, level + 1);
    QuotientIs(a + Size(level) - OFFSET, PAGE, PageOf(a), a + Size(level) - PageBase(PageOf(a)));
  }

  /** A larger aligned block that holds one buddy holds the other one too. */
  lemma PairInside(a: nat, level: nat, c: nat, larger: nat)
    requires level < larger <= MAX_LEVEL && Aligned(a, level) && Aligned(c, larger) && a >= OFFSET
    requires c <= BuddyOf(a, level) < c + Size(larger)
    ensures c <= a < c + Size(larger)
  {
    BuddyPairs(a, level);
    MultipleOf(c, level + 1, larger);
    var lower := if Aligned(a, level + 1) then a else BuddyOf(a, level);
    var m := Size(level + 1);
    assert Aligned(lower, level + 1) && lower <= BuddyOf(a, level) < lower + m && lower <= a < lower + m;
    Straddle(lower, c, m, Size(larger));
  }

  /** A unit-aligned cell of size `m` that meets a range of whole cells lies within it. */
  lemma Straddle(lower: nat, c: nat, m: nat, size: nat)
    requires m > 0 && lower % m == 0 && c % m == 0 && size % m == 0
    requires c < lower + m && lower < c + size
    ensures c <= lower && lower + m <= c + size
  {
    var i, j, k := lower / m, c / m, size / m;
    assert lower == m * i && c == m * j && size == m * k;
    CellOrder(m, j, i);
    CellOrder(m, i + 1, j + k) by {
      assert m * (i + 1) == lower + m && m * (j + k) == c + size;
    }
  }

  lemma CellOrder(m: nat, x: int, y: int)
    requires m > 0 && m * x < m * y + m
    ensures m * x <= m * y
  {
    Distribute(m, y);
    CancelFactor(m, x, y + 1);
    ScaleUp(m, x, y);
  }

  lemma Distribute(m: int, y: int)
    ensures m * (y + 1) == m * y + m
  {
  }

  lemma ScaleUp(m: nat, x: int, y: int)
    requires x <= y
    ensures m * x <= m * y
  {
  }

  lemma MultipleOf(c: nat, level: nat, larger: nat)
    requires level <= larger <= MAX_LEVEL && Aligned(c, larger)
    ensures Aligned(c, level) && Size(larger) % Size(level) == 0
    decreases larger - level
  {
    if level < larger {
      MultipleOf(c, level + 1, larger);
      HalfMultiple(c, Size(level));
      HalfMultiple(Size(larger), Size(level));
    }
  }

  lemma HalfMultiple(c: nat, m: nat)
    requires m > 0 && c % (2 * m) == 0
    ensures c % m == 0
  {
    var q := c / (2 * m);
    QuotientIs(c, m, 2 * q, 0) by { assert c == 2 * m * q; }
  }

  lemma PageBaseFacts(p: nat)
    ensures PageOf(PageBase(p)) == p && Aligned(PageBase(p), MAX_LEVEL)
  {
  }

  lemma PagesApart(p: nat, q: nat)
    requires p != q
    ensures PageBase(p) + PAGE <= PageBase(q) || PageBase(q) + PAGE <= PageBase(p)
  {
  }

  /** Any byte of a block lies in the block's page. */
  lemma InsideBlock(a: nat, level: nat, x: nat)
    requires level <= MAX_LEVEL && Aligned(a, level) && a >= OFFSET && a <= x < a + Size(level)
    ensures PageOf(x) == PageOf(a)
  {
    BlockInPage(a, level);
    QuotientIs(x - OFFSET, PAGE, PageOf(a), x - PageBase(PageOf(a)));
  }
}
