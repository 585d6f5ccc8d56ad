/**
 The character queue as the code updates it (drivers/src/dev/char/charq.c):
 a doubly linked chain of cblocks at kmalloc'ed addresses, with indices into
 fixed buffers and two counters.
 */
module CharBlocks {
  import opened Dll
  import opened CharQueue

  /** A cblock with its buffer; only data[..write] has been written. */
  datatype CBlock = CBlock(read: nat, write: nat, data: seq<Byte>)

  predicate Sound(b: CBlock) {
    b.read <= b.write <= |b.data| == CBLOCK_SIZE
  }

  function BlockOf(b: CBlock): Block {
    if b.write <= |b.data| then Block(b.read, b.data[..b.write]) else Block(b.read, b.data)
  }

  function BlocksOf(cells: map<nat, CBlock>, addrs: seq<nat>): Queue
    requires forall a :: a in addrs ==> a in cells
  {
    if addrs == [] then [] else [BlockOf(cells[addrs[0]])] + BlocksOf(cells, addrs[1..])
  }

  lemma {:induction false} BlocksAt(cells: map<nat, CBlock>, addrs: seq<nat>)
    requires forall a :: a in addrs ==> a in cells
    ensures |BlocksOf(cells, addrs)| == |addrs|
    ensures forall i {:trigger addrs[i]} :: 0 <= i < |addrs| ==> BlocksOf(cells, addrs)[i] == BlockOf(cells[addrs[i]])
  {
    if addrs != [] { BlocksAt(cells, addrs[1..]); }
  }

  lemma {:induction false} BlocksAppend(cells: map<nat, CBlock>, addrs: seq<nat>, a: nat)
    requires a in cells && forall b :: b in addrs ==> b in cells
    ensures BlocksOf(cells, addrs + [a]) == BlocksOf(cells, addrs) + [BlockOf(cells[a])]
  {
    if addrs == [] {
      assert BlocksOf(cells, [a][1..]) == [];
    } else {
      BlocksAppend(cells, addrs[1..], a);
      assert (addrs + [a])[1..] == addrs[1..] + [a];
    }
  }

  lemma {:induction false} BlocksElsewhere(cells: map<nat, CBlock>, addrs: seq<nat>, a: nat, b: CBlock)
    requires a !in addrs && forall x :: x in addrs ==> x in cells
    ensures BlocksOf(cells[a := b], addrs) == BlocksOf(cells, addrs)
  {
    if addrs != [] { BlocksElsewhere(cells, addrs[1..], a, b); }
  }

  lemma AppendKeepsListed(head: nat, next: Links, prev: Links, xs: seq<nat>, b: nat)
    requires Listed(head, next, prev, xs) && b != NULL && b !in xs
    ensures var tail := At(xs, |xs| - 1);
      Listed(if xs == [] then b else head, if xs == [] then next[b := NULL] else next[b := NULL][tail := b],
             prev[b := tail], xs + [b])
  {
  }

  lemma DropFirstKeepsListed(head: nat, next: Links, prev: Links, xs: seq<nat>)
    requires Listed(head, next, prev, xs) && |xs| > 1
    ensures head in next && next[head] == xs[1] && Listed(next[head], next, prev[next[head] := NULL], xs[1..])
  {
    assert next[xs[0]] == At(xs, 1);
  }

  lemma DropLastKeepsListed(head: nat, next: Links, prev: Links, xs: seq<nat>)
    requires Listed(head, next, prev, xs) && |xs| > 1
    ensures var tail := xs[|xs| - 1];
      tail in prev && prev[tail] == xs[|xs| - 2] && Listed(head, next[prev[tail] := NULL], prev, xs[..|xs| - 1])
  {
    assert prev[xs[|xs| - 1]] == At(xs, |xs| - 2);
  }

  // ---------- the chain ----------

  /** head, tail, links, blocks and counters describe the blocks `addrs`. */
  ghost predicate Chain(head: nat, tail: nat, next: Links, prev: Links, cells: map<nat, CBlock>, size: nat,
                        currentSize: nat, addrs: seq<nat>) {
    && Listed(head, next, prev, addrs)
    && tail == At(addrs, |addrs| - 1) && size == |addrs|
    && InPlace(cells, addrs)
    && currentSize == |Contents(BlocksOf(cells, addrs))|
  }

  ghost predicate InPlace(cells: map<nat, CBlock>, addrs: seq<nat>) {
    forall a :: a in addrs ==> a in cells && Sound(cells[a])
  }

  function Fresh(): CBlock { CBlock(0, 0, seq(CBLOCK_SIZE, _ => 0)) }

  lemma ChainAppend(head: nat, tail: nat, next: Links, prev: Links, cells: map<nat, CBlock>, size: nat,
                    currentSize: nat, addrs: seq<nat>, cell: nat)
    requires Chain(head, tail, next, prev, cells, size, currentSize, addrs) && cell != NULL && cell !in addrs
    ensures tail == NULL <==> addrs == []
    ensures Chain(if tail == NULL then cell else head, cell,
                  if tail == NULL then next[cell := NULL] else next[cell := NULL][tail := cell], prev[cell := tail],
                  cells[cell := Fresh()], size + 1, currentSize, addrs + [cell])
    ensures InPlace(cells, addrs) && InPlace(cells[cell := Fresh()], addrs + [cell])
    ensures BlocksOf(cells[cell := Fresh()], addrs + [cell]) == BlocksOf(cells, addrs) + [Block(0, [])]
  {
    AppendKeepsListed(head, next, prev, addrs, cell);
    assert addrs != [] ==> tail in addrs;
    hide Listed, Contents;
    BlocksElsewhere(cells, addrs, cell, Fresh());
    BlocksAppend(cells[cell := Fresh()], addrs, cell);
    assert BlockOf(Fresh()) == Block(0, []);
    ContentsAppend(BlocksOf(cells, addrs), Block(0, []));
    assert Contents(BlocksOf(cells, addrs)) + [] == Contents(BlocksOf(cells, addrs));
  }

  /** The last block is `tail`. */
  lemma ChainTail(head: nat, tail: nat, next: Links, prev: Links, cells: map<nat, CBlock>, size: nat,
                  currentSize: nat, addrs: seq<nat>)
    requires Chain(head, tail, next, prev, cells, size, currentSize, addrs)
    ensures NULL !in addrs && InPlace(cells, addrs) && (tail == NULL <==> addrs == [])
      && (addrs == [] <==> BlocksOf(cells, addrs) == [])
    ensures size == |BlocksOf(cells, addrs)| && currentSize == |Contents(BlocksOf(cells, addrs))|
    ensures tail != NULL ==> var q := BlocksOf(cells, addrs);
      && tail in cells && Sound(cells[tail]) && Tail(q) == BlockOf(cells[tail]) && q == Init(q) + [Tail(q)]
      && |Contents(q)| == |Contents(Init(q))| + |Unread(Tail(q))|
  {
    BlocksAt(cells, addrs);
    if addrs != [] {
      assert addrs[|addrs| - 1] == tail;
      SplitTail(BlocksOf(cells, addrs));
    }
  }

  /** The first block is `head`. */
  lemma ChainHead(head: nat, tail: nat, next: Links, prev: Links, cells: map<nat, CBlock>, size: nat,
                  currentSize: nat, addrs: seq<nat>)
    requires Chain(head, tail, next, prev, cells, size, currentSize, addrs)
    ensures InPlace(cells, addrs) && (head == NULL <==> addrs == []) && (addrs == [] <==> BlocksOf(cells, addrs) == [])
    ensures currentSize == |Contents(BlocksOf(cells, addrs))|
    ensures head != NULL ==> var q := BlocksOf(cells, addrs);
      && head in cells && Sound(cells[head]) && q[0] == BlockOf(cells[head]) && q == [q[0]] + q[1..]
      && |Contents(q)| == |Unread(q[0])| + |Contents(q[1..])|
  {
    BlocksAt(cells, addrs);
    if addrs != [] {
      assert addrs[0] == head;
    }
  }

  /** The counters and ends, without the queue taken apart. */
  lemma ChainEnds(head: nat, tail: nat, next: Links, prev: Links, cells: map<nat, CBlock>, size: nat,
                  currentSize: nat, addrs: seq<nat>)
    requires Chain(head, tail, next, prev, cells, size, currentSize, addrs)
    ensures InPlace(cells, addrs) && NULL !in addrs
    ensures head == NULL <==> BlocksOf(cells, addrs) == []
    ensures tail == NULL <==> BlocksOf(cells, addrs) == []
    ensures addrs == [] <==> BlocksOf(cells, addrs) == []
    ensures size == |BlocksOf(cells, addrs)| && currentSize == |Contents(BlocksOf(cells, addrs))|
    ensures head != NULL ==> head in cells && Sound(cells[head])
    ensures tail != NULL ==>
      tail in cells && Sound(cells[tail]) && cells[tail].write == |Tail(BlocksOf(cells, addrs)).chars|
  {
    ChainTail(head, tail, next, prev, cells, size, currentSize, addrs);
    ChainHead(head, tail, next, prev, cells, size, currentSize, addrs);
    hide Chain, BlocksOf, InPlace, Contents, Init;
  }

  lemma UnreadLength(b: CBlock)
    requires Sound(b)
    ensures |Unread(BlockOf(b))| == b.write - b.read
  {
  }

  lemma NothingListed(next: Links, prev: Links)
    ensures Listed(NULL, next, prev, [])
  {
  }

  lemma NoBlocks(cells: map<nat, CBlock>)
    ensures BlocksOf(cells, []) == [] && Contents([]) == []
  {
  }

  lemma Ends(head: nat, next: Links, prev: Links, addrs: seq<nat>)
    requires Listed(head, next, prev, addrs) && addrs != []
    ensures var init, tail := addrs[..|addrs| - 1], addrs[|addrs| - 1];
      && addrs == init + [tail] && tail !in init && tail in next && tail in prev && tail != NULL
      && addrs == [head] + addrs[1..] && head !in addrs[1..] && head in next && head != NULL
      && (head == tail <==> |addrs| == 1)
  {
    assert addrs[|addrs| - 1] in next && addrs[|addrs| - 1] in prev && addrs[0] in next;
  }

  lemma ChainSetTail(head: nat, tail: nat, next: Links, prev: Links, cells: map<nat, CBlock>, size: nat,
                     currentSize: nat, addrs: seq<nat>, b: CBlock, n: nat)
    requires Chain(head, tail, next, prev, cells, size, currentSize, addrs) && tail != NULL && Sound(b)
    requires tail in cells && currentSize - |Unread(BlockOf(cells[tail]))| + |Unread(BlockOf(b))| == n
    ensures Chain(head, tail, next, prev, cells[tail := b], size, n, addrs)
    ensures InPlace(cells, addrs) && InPlace(cells[tail := b], addrs) && BlocksOf(cells, addrs) != []
    ensures BlocksOf(cells[tail := b], addrs) == Init(BlocksOf(cells, addrs)) + [BlockOf(b)]
  {
    hide Listed, Contents, BlocksOf, NoDup;
    var init := addrs[..|addrs| - 1];
    ChainTail(head, tail, next, prev, cells, size, currentSize, addrs);
    Ends(head, next, prev, addrs);
    BlocksElsewhere(cells, init, tail, b);
    BlocksAppend(cells, init, tail);
    BlocksAppend(cells[tail := b], init, tail);
    ContentsAppend(Init(BlocksOf(cells, addrs)), BlockOf(b));
  }

  lemma ChainSetHead(head: nat, tail: nat, next: Links, prev: Links, cells: map<nat, CBlock>, size: nat,
                     currentSize: nat, addrs: seq<nat>, b: CBlock, n: nat)
    requires Chain(head, tail, next, prev, cells, size, currentSize, addrs) && head != NULL && Sound(b)
    requires head in cells && currentSize - |Unread(BlockOf(cells[head]))| + |Unread(BlockOf(b))| == n
    ensures Chain(head, tail, next, prev, cells[head := b], size, n, addrs)
    ensures InPlace(cells, addrs) && InPlace(cells[head := b], addrs) && BlocksOf(cells, addrs) != []
    ensures BlocksOf(cells[head := b], addrs) == [BlockOf(b)] + BlocksOf(cells, addrs)[1..]
  {
    hide Listed, NoDup, BlocksOf, Contents, Unread;
    ChainHead(head, tail, next, prev, cells, size, currentSize, addrs);
    Ends(head, next, prev, addrs);
    BlocksElsewhere(cells, addrs[1..], head, b);
    FirstBlock(cells, addrs);
    FirstBlock(cells[head := b], addrs);
    FirstContents(BlockOf(b), BlocksOf(cells, addrs)[1..]);
  }

  lemma FirstBlock(cells: map<nat, CBlock>, addrs: seq<nat>)
    requires addrs != [] && forall a :: a in addrs ==> a in cells
    ensures var q := BlocksOf(cells, addrs);
      q != [] && q == [BlockOf(cells[addrs[0]])] + BlocksOf(cells, addrs[1..]) && q[1..] == BlocksOf(cells, addrs[1..])
  {
    hide BlockOf;
  }

  lemma FirstContents(b: Block, q: Queue)
    ensures |Contents([b] + q)| == |Unread(b)| + |Contents(q)|
  {
    hide Unread;
    assert ([b] + q)[1..] == q;
  }

  lemma ChainDropTail(head: nat, tail: nat, next: Links, prev: Links, cells: map<nat, CBlock>, size: nat,
                      currentSize: nat, addrs: seq<nat>, n: int)
    requires Chain(head, tail, next, prev, cells, size, currentSize, addrs) && tail != NULL
    requires tail in cells && Sound(cells[tail]) && n == currentSize - (cells[tail].write - cells[tail].read)
    ensures n >= 0 && tail in prev && tail in next && size > 0 && |addrs| > 0 && InPlace(cells, addrs)
      && BlocksOf(cells, addrs) != []
    ensures head == tail <==> |addrs| == 1
    ensures head == tail ==> Chain(NULL, NULL, next, prev, cells, size - 1, n, addrs[..|addrs| - 1])
    ensures head != tail ==>
      Chain(head, prev[tail], next[prev[tail] := NULL], prev, cells, size - 1, n, addrs[..|addrs| - 1])
    ensures InPlace(cells, addrs[..|addrs| - 1])
      && BlocksOf(cells, addrs[..|addrs| - 1]) == Init(BlocksOf(cells, addrs))
  {
    hide Listed, Contents, NoDup, BlocksOf;
    var init := addrs[..|addrs| - 1];
    UnreadLength(cells[tail]);
    ChainTail(head, tail, next, prev, cells, size, currentSize, addrs);
    Ends(head, next, prev, addrs);
    NothingListed(next, prev);
    NoBlocks(cells);
    if |addrs| > 1 { DropLastKeepsListed(head, next, prev, addrs); }
    BlocksAppend(cells, init, tail);
  }

  lemma ChainDropHead(head: nat, tail: nat, next: Links, prev: Links, cells: map<nat, CBlock>, size: nat,
                      currentSize: nat, addrs: seq<nat>, n: int)
    requires Chain(head, tail, next, prev, cells, size, currentSize, addrs) && head != NULL
    requires head in cells && Sound(cells[head]) && n == currentSize - (cells[head].write - cells[head].read)
    ensures n >= 0 && head in next && size > 0 && |addrs| > 0 && InPlace(cells, addrs) && BlocksOf(cells, addrs) != []
    ensures head == tail <==> |addrs| == 1
    ensures head == tail ==> Chain(NULL, NULL, next, prev, cells, size - 1, n, addrs[1..])
    ensures head != tail ==> Chain(next[head], tail, next, prev[next[head] := NULL], cells, size - 1, n, addrs[1..])
    ensures InPlace(cells, addrs[1..]) && BlocksOf(cells, addrs[1..]) == BlocksOf(cells, addrs)[1..]
  {
    hide Listed, Contents, NoDup;
    UnreadLength(cells[head]);
    ChainHead(head, tail, next, prev, cells, size, currentSize, addrs);
    Ends(head, next, prev, addrs);
    NothingListed(next, prev);
    NoBlocks(cells);
    if |addrs| > 1 { DropFirstKeepsListed(head, next, prev, addrs); }
  }

  class CharQ {
    var next: Links
    var prev: Links
    var cells: map<nat, CBlock>
    var head: nat
    var tail: nat
    var size: nat
    var currentSize: nat
    ghost var addrs: seq<nat>

    ghost predicate Valid()
      reads this
    {
      Chain(head, tail, next, prev, cells, size, currentSize, addrs)
    }

    ghost function Abs(): Queue
      requires Valid()
      reads this
    {
      BlocksOf(cells, addrs)
    }

    constructor ()
      ensures Valid() && Abs() == []
    {
      next, prev, cells, head, tail, size, currentSize, addrs := map[], map[], map[], NULL, NULL, 0, 0, [];
    }

    /** insert_cblock_in_tail; `cell` is what kmalloc returns, NULL for no memory. */
    method InsertInTail(cell: nat) returns (cb: nat)
      requires Valid() && cell !in addrs
      modifies this
      ensures Valid()
      ensures cb == if old(size) >= CHARQ_SIZE then NULL else cell
      ensures Abs() == if cb != NULL then old(Abs()) + [Block(0, [])] else old(Abs())
      ensures cb != NULL ==> tail == cb
      ensures cb == NULL ==> tail == old(tail)
      ensures addrs == if cb != NULL then old(addrs) + [cb] else old(addrs)
    {
      hide Chain, BlocksOf, Fresh;
      if size >= CHARQ_SIZE {
        return NULL;
      }
      if cell == NULL {
        return NULL;
      }
      ChainAppend(head, tail, next, prev, cells, size, currentSize, addrs, cell);
      cells := cells[cell := Fresh()];
      next, prev := next[cell := NULL], prev[cell := NULL];
      size := size + 1;
      if tail == NULL {
        head, tail := cell, cell;
      } else {
        prev := prev[cell := tail];
        next := next[tail := cell];
        tail := cell;
      }
      addrs := addrs + [cell];
      assert prev == old(prev)[cell := old(tail)];
      return cell;
    }

    /** The first block leaves the chain (charq.c:52-57). */
    method UnlinkHead()
      requires head in next
      modifies this`head, this`tail, this`prev
      ensures old(head == tail) ==> head == tail == NULL && prev == old(prev)
      ensures old(head != tail) ==>
        head == old(next[head]) && tail == old(tail) && prev == old(prev)[old(next[head]) := NULL]
    {
      if head == tail {
        head, tail := NULL, NULL;
      } else {
        head := next[head];
        prev := prev[head := NULL];
      }
    }

    /** The last block leaves the chain (charq.c:72-77). */
    method UnlinkTail()
      requires tail in prev
      modifies this`head, this`tail, this`next
      ensures old(head == tail) ==> head == tail == NULL && next == old(next)
      ensures old(head != tail) ==>
        head == old(head) && tail == old(prev[tail]) && next == old(next)[old(prev[tail]) := NULL]
    {
      if head == tail {
        head, tail := NULL, NULL;
      } else {
        tail := prev[tail];
        next := next[tail := NULL];
      }
    }

    /** delete_cblock_from_head */
    method DeleteFromHead()
      requires Valid()
      modifies this
      ensures Valid()
      ensures Abs() == if old(Abs()) == [] then [] else old(Abs())[1..]
      ensures addrs == if old(Abs()) == [] then [] else old(addrs)[1..]
    {
      hide Chain, BlocksOf, InPlace, Contents;
      ChainEnds(head, tail, next, prev, cells, size, currentSize, addrs);
      if head == NULL {
        return;
      }
      var unread := cells[head].write - cells[head].read;
      ChainDropHead(head, tail, next, prev, cells, size, currentSize, addrs, currentSize - unread);
      UnlinkHead();
      currentSize := currentSize - unread;
      size := size - 1;
      addrs := addrs[1..];
    }

    /** delete_cblock_from_tail */
    method DeleteFromTail()
      requires Valid()
      modifies this
      ensures Valid()
      ensures Abs() == if old(Abs()) == [] then [] else Init(old(Abs()))
      ensures forall a :: a in addrs ==> a in old(addrs)
    {
      hide Chain, BlocksOf, InPlace, Contents, Init;
      ChainEnds(head, tail, next, prev, cells, size, currentSize, addrs);
      if tail == NULL {
        return;
      }
      var unread := cells[tail].write - cells[tail].read;
      ChainDropTail(head, tail, next, prev, cells, size, currentSize, addrs, currentSize - unread);
      UnlinkTail();
      currentSize := currentSize - unread;
      size := size - 1;
      addrs := addrs[..|addrs| - 1];
    }

    /** Writes into the last block (charq.c:99-103). */
    method WriteTail(c: Byte)
      requires Valid() && tail != NULL && Abs() != [] && |Tail(Abs()).chars| < CBLOCK_SIZE
      modifies this`cells, this`currentSize
      ensures Valid()
      ensures var t := Tail(old(Abs())); Abs() == Init(old(Abs())) + [Block(t.read, t.chars + [c])]
    {
      hide Chain, BlocksOf, InPlace;
      ChainTail(head, tail, next, prev, cells, size, currentSize, addrs);
      var b := cells[tail];
      var b' := CBlock(b.read, b.write + 1, b.data[b.write := c]);
      WrittenBlock(b, c);
      ChainSetTail(head, tail, next, prev, cells, size, currentSize, addrs, b', currentSize + 1);
      cells := cells[tail := b'];
      currentSize := currentSize + 1;
    }

    /** charq_put_char; `cell` is the address kmalloc would return for a new block. */
    method PutChar(c: Byte, cell: nat) returns (ok: bool)
      requires Valid() && cell !in addrs
      modifies this
      ensures Valid()
      ensures (Abs(), ok) == Put(old(Abs()), c, cell != NULL)
      ensures forall a :: a in addrs ==> a in old(addrs) || a == cell
      decreases if Abs() != [] && |Tail(Abs()).chars| < CBLOCK_SIZE then 0 else 1
    {
      hide Chain, BlocksOf, InPlace, Put, Init, Contents;
      ChainEnds(head, tail, next, prev, cells, size, currentSize, addrs);
      PutCases(Abs(), c, cell != NULL);
      var cb := tail;
      if cb == NULL {
        cb := InsertInTail(cell);
        if cb == NULL {
          return false;
        }
        ChainEnds(head, tail, next, prev, cells, size, currentSize, addrs);
      }
      if cells[cb].write < CBLOCK_SIZE {
        WriteTail(c);
        return true;
      }
      var more := InsertInTail(cell);
      if more != NULL {
        ChainEnds(head, tail, next, prev, cells, size, currentSize, addrs);
        ok := PutChar(c, NULL);
        ChainEnds(head, tail, next, prev, cells, size, currentSize, addrs);
        return true;
      }
      return false;
    }

    /** charq_unput_char */
    method UnputChar()
      requires Valid()
      modifies this
      ensures Valid() && Abs() == Unput(old(Abs()))
      ensures forall a :: a in addrs ==> a in old(addrs)
    {
      hide Chain, BlocksOf, InPlace, Unput, Unread, Init;
      ChainTail(head, tail, next, prev, cells, size, currentSize, addrs);
      UnputCases(Abs());
      var cb := tail;
      if cb != NULL {
        var b := cells[cb];
        if b.write > b.read {
          var b' := CBlock(b.read, b.write - 1, b.data);
          UnwrittenBlock(b);
          ChainSetTail(head, tail, next, prev, cells, size, currentSize, addrs, b', currentSize - 1);
          cells := cells[cb := b'];
          currentSize := currentSize - 1;
        }
        if cells[cb].write - cells[cb].read == 0 {
          DeleteFromTail();
        }
      }
    }

    /** charq_get_char */
    method GetChar() returns (c: Byte)
      requires Valid()
      modifies this
      ensures Valid() && (Abs(), c) == Get(old(Abs()))
    {
      hide Chain, BlocksOf, InPlace, Get, Unread, Contents;
      ChainHead(head, tail, next, prev, cells, size, currentSize, addrs);
      GetCases(Abs());
      c := 0;
      var cb := head;
      if cb != NULL {
        var b := cells[cb];
        if b.write > b.read {
          c := b.data[b.read];
          var b' := CBlock(b.read + 1, b.write, b.data);
          ReadBlock(b);
          ChainSetHead(head, tail, next, prev, cells, size, currentSize, addrs, b', currentSize - 1);
          cells := cells[cb := b'];
          currentSize := currentSize - 1;
        }
        if cells[cb].write - cells[cb].read == 0 {
          DeleteFromHead();
        }
      }
    }

    /** charq_flush */
    method Flush()
      requires Valid()
      modifies this
      ensures Valid() && Abs() == [] && addrs == [] && currentSize == 0 && size == 0
    {
      hide Chain, BlocksOf, InPlace;
      ChainEnds(head, tail, next, prev, cells, size, currentSize, addrs);
      while head != NULL
        invariant Valid() && (head == NULL <==> addrs == []) && (addrs == [] <==> Abs() == [])
        decreases |addrs|
      {
        DeleteFromHead();
        ChainEnds(head, tail, next, prev, cells, size, currentSize, addrs);
      }
      ChainEnds(head, tail, next, prev, cells, size, currentSize, addrs);
      NoBlocks(cells);
    }

    /** charq_remaining */
    method CharsRemaining() returns (n: int)
      requires Valid()
      ensures n == Remaining(Abs())
    {
      n := CHARQ_SIZE * CBLOCK_SIZE - currentSize;
    }

    /** LAST_CHAR; the chain is kept by the operations above, so that its last block is never empty. */
    method LastCharacter() returns (c: Byte)
      requires Valid() && Inv(Abs())
      ensures c == LastChar(Abs())
    {
      hide Chain, BlocksOf, InPlace;
      ChainTail(head, tail, next, prev, cells, size, currentSize, addrs);
      if tail != NULL {
        InitShape(Abs());
        return cells[tail].data[cells[tail].write - 1];
      }
      return 0;
    }
  }

  /** Writing into a block just inserted is putting into a new block. */
  lemma PutCases(q: Queue, c: Byte, memory: bool)
    ensures q != [] && |Tail(q).chars| < CBLOCK_SIZE ==>
      Put(q, c, memory) == (Init(q) + [Block(Tail(q).read, Tail(q).chars + [c])], true)
    ensures (q != [] ==> |Tail(q).chars| >= CBLOCK_SIZE) ==>
      Put(q, c, memory) == if |q| < CHARQ_SIZE && memory then (q + [Block(0, [c])], true) else (q, false)
    ensures var s := q + [Block(0, [])];
      && Init(s) == q && Tail(s) == Block(0, []) && Put(s, c, false) == (q + [Block(0, [c])], true)
      && Init(s) + [Block(0, [c])] == q + [Block(0, [c])] && Tail(s).chars + [c] == [c]
  {
    var s := q + [Block(0, [])];
    assert s[..|s| - 1] == q && [] + [c] == [c];
  }

  lemma UnputCases(q: Queue)
    ensures q == [] ==> Unput(q) == []
    ensures q != [] ==> var t := Tail(q);
      var t' := if t.read < |t.chars| then Block(t.read, t.chars[..|t.chars| - 1]) else t;
      var r := Init(q) + [t'];
      && Unput(q) == (if t'.read == |t'.chars| then Init(r) else r) && (t' == t ==> r == q)
  {
    if q != [] {
      var t := Tail(q);
      var t' := if t.read < |t.chars| then Block(t.read, t.chars[..|t.chars| - 1]) else t;
      assert Init(Init(q) + [t']) == Init(q);
    }
  }

  lemma GetCases(q: Queue)
    ensures q == [] ==> Get(q) == ([], 0)
    ensures q != [] ==> var h := q[0];
      var c := if h.read < |h.chars| then h.chars[h.read] else 0;
      var h' := if h.read < |h.chars| then Block(h.read + 1, h.chars) else h;
      var r := [h'] + q[1..];
      && Get(q) == (if h'.read == |h'.chars| then r[1..] else r, c) && (h' == h ==> r == q)
  {
    if q != [] {
      var h := q[0];
      var h' := if h.read < |h.chars| then Block(h.read + 1, h.chars) else h;
      assert ([h'] + q[1..])[1..] == q[1..];
    }
  }

  lemma ReadBlock(b: CBlock)
    requires Sound(b) && b.read < b.write
    ensures var b' := CBlock(b.read + 1, b.write, b.data);
      && Sound(b') && BlockOf(b') == Block(b.read + 1, BlockOf(b).chars) && BlockOf(b).chars[b.read] == b.data[b.read]
      && |BlockOf(b).chars| == b.write && |Unread(BlockOf(b'))| == |Unread(BlockOf(b))| - 1
  {
  }

  lemma WrittenBlock(b: CBlock, c: Byte)
    requires Sound(b) && b.write < CBLOCK_SIZE
    ensures var b' := CBlock(b.read, b.write + 1, b.data[b.write := c]);
      && Sound(b') && BlockOf(b') == Block(b.read, BlockOf(b).chars + [c])
      && |Unread(BlockOf(b'))| == |Unread(BlockOf(b))| + 1
  {
  }

  lemma UnwrittenBlock(b: CBlock)
    requires Sound(b) && b.read < b.write
    ensures var b' := CBlock(b.read, b.write - 1, b.data);
      && Sound(b') && BlockOf(b') == Block(b.read, BlockOf(b).chars[..|BlockOf(b).chars| - 1])
      && |Unread(BlockOf(b'))| == |Unread(BlockOf(b))| - 1
  {
  }
}
