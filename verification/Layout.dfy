/**
 The page directory and page tables mem_init builds (kernel/src/mem/layout.c:82-98),
 read back the way the processor walks them, and the cap on physical pages
 (kernel/src/init/bios.c:114-119).
 */
module Layout {
  const WORD: nat := 0x1_0000_0000
  const PAGE_SIZE: nat := 4096
  const ENTRIES: nat := 1024
  const KERNEL_PAGE_OFFSET: nat := 0xC000_0000
  const GDT_BASE: nat := 0x4000_0000

  type Word = w: nat | w < WORD

  /** `x | PAGE_PRESENT | PAGE_RW`. */
  function Mark(x: Word): Word { x / 4 * 4 + 3 }

  /** GET_PGDIR: bits 22 to 31. */
  function DirIndex(addr: Word): nat { addr / 0x40_0000 }

  function TableIndex(addr: Word): nat { addr / PAGE_SIZE % ENTRIES }

  function PageAlign(addr: nat): nat { (addr + PAGE_SIZE - 1) / PAGE_SIZE * PAGE_SIZE }

  function PageTables(pages: nat): nat { pages / ENTRIES + if pages % ENTRIES != 0 then 1 else 0 }

  datatype Frame = Fault | At(address: nat)

  /**
   The processor's two-level walk (section 4.3 of the Intel SDM, Vol. 3A): `table` holds the
   words from physical address `base` on; bit 0 of an entry is its present bit.
   */
  function Walk(dir: seq<Word>, base: nat, table: seq<Word>, v: Word): Frame
    requires |dir| == ENTRIES
  {
    var pde := dir[DirIndex(v)];
    if pde % 2 == 0 then Fault
    else
      var slot := pde / PAGE_SIZE * PAGE_SIZE + 4 * TableIndex(v) - base;
      if slot < 0 || slot / 4 >= |table| || table[slot / 4] % 2 == 0 then Fault
      else At(table[slot / 4] / PAGE_SIZE * PAGE_SIZE + v % PAGE_SIZE)
  }

  /** The entries after the loop has filled the first `n` pages. */
  ghost predicate Filled(dir: seq<Word>, base: nat, table: seq<Word>, n: nat) {
    && |dir| == ENTRIES && n <= |table| && n <= GDT_BASE / PAGE_SIZE
    && (forall i {:trigger table[i]} :: 0 <= i < |table| ==> table[i] == if i < n then i * PAGE_SIZE + 3 else 0)
    && forall d {:trigger dir[d]} :: 0 <= d < ENTRIES ==>
         dir[d] == if d >= 768 && (d - 768) * ENTRIES < n then base + (d - 768) * PAGE_SIZE + 3 else 0
  }

  /** The kernel window: each address mapped to itself minus the offset, and nothing else mapped. */
  function Linear(pages: nat, v: Word): Frame {
    if KERNEL_PAGE_OFFSET <= v < KERNEL_PAGE_OFFSET + pages * PAGE_SIZE then At(v - KERNEL_PAGE_OFFSET) else Fault
  }

  /** mem_init maps exactly the kernel window of the physical pages, each address to itself minus the offset. */
  lemma WalkIsLinear(dir: seq<Word>, base: nat, table: seq<Word>, pages: nat, v: Word)
    requires Filled(dir, base, table, pages) && base % PAGE_SIZE == 0
    ensures Walk(dir, base, table, v) == Linear(pages, v)
  {
    var d, t := DirIndex(v), TableIndex(v);
    Indices(v);
    if d >= 768 && (d - 768) * ENTRIES < pages {
      var i := (d - 768) * ENTRIES + t;
      TableAddress(base, d - 768);
      assert (dir[d] / PAGE_SIZE * PAGE_SIZE + 4 * t - base) == 4 * i;
      if i < |table| {
        EntryAddress(i);
        assert table[i] == if i < pages then i * PAGE_SIZE + 3 else 0;
      }
    }
  }

  lemma Indices(v: Word)
    ensures DirIndex(v) < ENTRIES
    ensures v == (DirIndex(v) * ENTRIES + TableIndex(v)) * PAGE_SIZE + v % PAGE_SIZE
  {
    var p := v / PAGE_SIZE;
    assert v == p * PAGE_SIZE + v % PAGE_SIZE;
    assert p / ENTRIES == v / 0x40_0000;
    assert p == p / ENTRIES * ENTRIES + p % ENTRIES;
  }

  lemma TableAddress(base: nat, d: nat)
    requires base % PAGE_SIZE == 0
    ensures var e := base + d * PAGE_SIZE + 3; e / PAGE_SIZE * PAGE_SIZE == base + d * PAGE_SIZE && e % 2 == 1
  {
    EntryAddress(base / PAGE_SIZE + d);
  }

  lemma EntryAddress(i: nat)
    ensures (i * PAGE_SIZE + 3) / PAGE_SIZE * PAGE_SIZE == i * PAGE_SIZE && (i * PAGE_SIZE + 3) % 2 == 1
  {
  }

  /** The truncation at the end of bios_mmap_init: the smaller of the pages found and a gigabyte of them. */
  function CapPages(pages: nat): (r: nat)
    ensures r <= pages && r <= 0x40000 && (r == pages || r == 0x40000)
  {
    if pages > GDT_BASE / PAGE_SIZE then GDT_BASE / PAGE_SIZE else pages
  }

  /** The last page needs a directory index below 1024 iff there are no more pages than the cap allows. */
  lemma CapFitsDirectoryIff(pages: nat)
    requires pages > 0
    ensures 768 + (pages - 1) / ENTRIES < ENTRIES <==> pages == CapPages(pages)
  {
  }

  /** The directory and tables of mem_init; both arrays come cleared, `base` is the physical address of the tables. */
  method MemInit(pages: nat, realLastAddr: nat) returns (dir: array<Word>, base: nat, table: array<Word>)
    requires pages == CapPages(pages)
    requires PageAlign(realLastAddr) + PAGE_SIZE * (1 + PageTables(pages)) <= WORD
    ensures base == PageAlign(realLastAddr) + PAGE_SIZE && table.Length == PageTables(pages) * ENTRIES
    ensures fresh(dir) && fresh(table) && dir.Length == ENTRIES && Filled(dir[..], base, table[..], pages)
    ensures base % 4096 == 0 && realLastAddr <= base - 4096 < realLastAddr + 4096
    ensures table.Length % 1024 == 0 && pages <= table.Length < pages + 1024
    ensures forall v: Word :: Walk(dir[..], base, table[..], v) == Linear(pages, v)
  {
    hide Filled, Walk, Linear, Mark;
    Rounded(pages, realLastAddr);
    dir := new Word[ENTRIES](_ => 0);
    base := PageAlign(realLastAddr) + PAGE_SIZE;
    table := new Word[PageTables(pages) * ENTRIES](_ => 0);
    NothingFilled(dir[..], base, table[..]);
    var n := 0;
    while n < pages
      invariant 0 <= n <= pages <= table.Length
      invariant Filled(dir[..], base, table[..], n)
    {
      SlotOf(base, n, PageTables(pages));
      ghost var d, t := dir[..], table[..];
      FillOne(d, base, t, n);
      table[n] := Mark(n * PAGE_SIZE % WORD);
      if n % ENTRIES == 0 {
        dir[DirIndex(KERNEL_PAGE_OFFSET) + n / ENTRIES] := Mark((base + 4 * n) % WORD);
      }
      assert table[..] == t[n := Mark(n * PAGE_SIZE % WORD)];
      assert dir[..] == if n % ENTRIES == 0 then d[768 + n / ENTRIES := Mark((base + 4 * n) % WORD)] else d;
      n := n + 1;
    }
    forall v: Word {
      WalkIsLinear(dir[..], base, table[..], pages, v);
    }
  }

  /** The directory takes the first whole page behind the kernel, and the tables are as few as hold all pages. */
  lemma Rounded(pages: nat, last: nat)
    ensures last <= PageAlign(last) < last + 4096 && PageAlign(last) % 4096 == 0
    ensures pages <= PageTables(pages) * 1024 < pages + 1024
  {
    EntryAddress((last + 4095) / 4096);
  }

  lemma SlotOf(base: nat, n: nat, tables: nat)
    requires base % PAGE_SIZE == 0 && n / ENTRIES < tables && base + PAGE_SIZE * tables <= WORD
      && n < GDT_BASE / PAGE_SIZE
    ensures Mark(n * PAGE_SIZE % WORD) == n * PAGE_SIZE + 3
    ensures 768 + n / ENTRIES < ENTRIES && DirIndex(KERNEL_PAGE_OFFSET) == 768
    ensures n % ENTRIES == 0 ==> base + 4 * n + 3 < WORD && Mark((base + 4 * n) % WORD) == base + 4 * n + 3
  {
    MarkAligned(n);
    if n % ENTRIES == 0 {
      var b, d := base / PAGE_SIZE, n / ENTRIES;
      assert base == b * PAGE_SIZE && n == d * ENTRIES;
      assert base + 4 * n == (b + d) * PAGE_SIZE;
      assert (b + tables) * PAGE_SIZE <= WORD;
      MarkAligned(b + d);
    }
  }

  lemma MarkAligned(k: nat)
    requires k * PAGE_SIZE < WORD
    ensures k * PAGE_SIZE + 3 < WORD && Mark(k * PAGE_SIZE % WORD) == k * PAGE_SIZE + 3
  {
    var w := k * PAGE_SIZE;
    assert w % WORD == w;
    assert w == 4 * (1024 * k);
    assert w / 4 == 1024 * k;
  }

  lemma NothingFilled(dir: seq<Word>, base: nat, table: seq<Word>)
    requires |dir| == ENTRIES && (forall d :: 0 <= d < |dir| ==> dir[d] == 0)
      && (forall i :: 0 <= i < |table| ==> table[i] == 0)
    ensures Filled(dir, base, table, 0)
  {
  }

  /** One turn of the loop. */
  lemma FillOne(dir: seq<Word>, base: nat, table: seq<Word>, n: nat)
    requires Filled(dir, base, table, n) && n < |table| && n < GDT_BASE / PAGE_SIZE
    requires n % ENTRIES == 0 ==> base + 4 * n + 3 < WORD
    ensures 768 + n / ENTRIES < ENTRIES && n * PAGE_SIZE + 3 < WORD
    ensures n % ENTRIES == 0 ==>
      Filled(dir[768 + n / ENTRIES := base + 4 * n + 3], base, table[n := n * PAGE_SIZE + 3], n + 1)
    ensures n % ENTRIES != 0 ==> Filled(dir, base, table[n := n * PAGE_SIZE + 3], n + 1)
  {
  }

  // ---------- the memory map ----------

  const AVAILABLE: int := 1
  const RESERVED: int := 2

  datatype Region = Region(from: Word, fromHigh: Word, to: Word, toHigh: Word, kind: int)

  /** `addr` lies in the whole pages of a region below 4 GB. */
  predicate Covers(r: Region, kind: int, addr: Word) {
    r.to != 0 && r.kind == kind && r.fromHigh == 0 && r.toHigh == 0 && r.from <= addr < r.to / PAGE_SIZE * PAGE_SIZE
  }

  /** That is, the region is of the kind asked for and reaches to the end of the page of `addr`. */
  lemma CoversWholePage(r: Region, kind: int, addr: Word)
    ensures Covers(r, kind, addr) <==>
      r.kind == kind && r.fromHigh == 0 && r.toHigh == 0 && r.from <= addr && (addr / 4096 + 1) * 4096 <= r.to
  {
    var n := r.to / 4096;
    assert r.to == n * 4096 + r.to % 4096;
    assert addr == addr / 4096 * 4096 + addr % 4096;
    if addr / 4096 < n { assert addr < n * 4096; }
  }

  ghost predicate Somewhere(mmap: seq<Region>, kind: int, addr: Word) {
    exists r :: r in mmap && Covers(r, kind, addr)
  }

  lemma SomewhereMore(xs: seq<Region>, r: Region, kind: int, addr: Word)
    ensures Somewhere(xs + [r], kind, addr) <==> Somewhere(xs, kind, addr) || Covers(r, kind, addr)
  {
    assert r in xs + [r];
    if Somewhere(xs, kind, addr) {
      var q :| q in xs && Covers(q, kind, addr);
      assert q in xs + [r];
    }
  }

  /**
   An address is memory iff some available region (kind 1) covers it and no reserved one (kind 2)
   does, in whatever order they are listed.
   */
  method HasAddr(mmap: seq<Region>, addr: Word) returns (found: bool)
    ensures found <==> Somewhere(mmap, 1, addr) && !Somewhere(mmap, 2, addr)
  {
    found := false;
    for n := 0 to |mmap|
      invariant found <==> Somewhere(mmap[..n], AVAILABLE, addr)
    {
      var r := mmap[n];
      assert mmap[..n + 1] == mmap[..n] + [r];
      SomewhereMore(mmap[..n], r, AVAILABLE, addr);
      if r.to != 0 && r.kind == AVAILABLE && r.fromHigh == 0 && r.toHigh == 0 {
        if addr >= r.from && addr < r.to / PAGE_SIZE * PAGE_SIZE {
          found := true;
        }
      }
    }
    assert mmap[..|mmap|] == mmap;
    ghost var available := found;
    for n := 0 to |mmap|
      invariant found <==> available && !Somewhere(mmap[..n], RESERVED, addr)
    {
      var r := mmap[n];
      assert mmap[..n + 1] == mmap[..n] + [r];
      SomewhereMore(mmap[..n], r, RESERVED, addr);
      if r.to != 0 && r.kind == RESERVED && r.fromHigh == 0 && r.toHigh == 0 {
        if addr >= r.from && addr < r.to / PAGE_SIZE * PAGE_SIZE {
          found := false;
        }
      }
    }
  }
}
