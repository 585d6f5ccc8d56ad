/**
 Character queues (drivers/src/dev/char/charq.c) as chains of small blocks, and
 the byte deque they stand for.
 */
module CharQueue {
  const CBLOCK_SIZE: nat := 32
  const CHARQ_SIZE: nat := 8
  const CAPACITY: nat := CBLOCK_SIZE * CHARQ_SIZE

  type Byte = b: nat | b < 256

  /** A cblock: everything written to it so far, of which the first `read` characters are consumed. */
  datatype Block = Block(read: nat, chars: seq<Byte>)

  type Queue = seq<Block>

  function Unread(b: Block): seq<Byte> {
    if b.read <= |b.chars| then b.chars[b.read..] else []
  }

  function Contents(q: Queue): seq<Byte> {
    if q == [] then [] else Unread(q[0]) + Contents(q[1..])
  }

  /** No block is used up, only the first is partly read, all but the last are full. */
  ghost predicate Inv(q: Queue) {
    && |q| <= CHARQ_SIZE
    && forall i {:trigger q[i]} :: 0 <= i < |q| ==>
         && q[i].read < |q[i].chars| <= CBLOCK_SIZE
         && (i > 0 ==> q[i].read == 0)
         && (i < |q| - 1 ==> |q[i].chars| == CBLOCK_SIZE)
  }

  function Init(q: Queue): Queue
    requires q != []
  {
    q[..|q| - 1]
  }

  function Tail(q: Queue): Block
    requires q != []
  {
    q[|q| - 1]
  }

  // ---------- operations ----------

  /** charq_put_char; `memory` tells whether kmalloc would deliver a block. */
  function Put(q: Queue, c: Byte, memory: bool): (Queue, bool) {
    if q != [] && |Tail(q).chars| < CBLOCK_SIZE then
      (Init(q) + [Block(Tail(q).read, Tail(q).chars + [c])], true)
    else if |q| < CHARQ_SIZE && memory then (q + [Block(0, [c])], true)
    else (q, false)
  }

  function Unput(q: Queue): Queue {
    if q == [] then q
    else
      var t := Tail(q);
      var t' := if t.read < |t.chars| then Block(t.read, t.chars[..|t.chars| - 1]) else t;
      if t'.read == |t'.chars| then Init(q) else Init(q) + [t']
  }

  /** charq_get_char; it returns 0 for an empty queue. */
  function Get(q: Queue): (Queue, Byte) {
    if q == [] then (q, 0)
    else
      var h := q[0];
      var c := if h.read < |h.chars| then h.chars[h.read] else 0;
      var h' := if h.read < |h.chars| then Block(h.read + 1, h.chars) else h;
      (if h'.read == |h'.chars| then q[1..] else [h'] + q[1..], c)
  }

  /** LAST_CHAR */
  function LastChar(q: Queue): Byte {
    if q != [] && Tail(q).chars != [] then Tail(q).chars[|Tail(q).chars| - 1] else 0
  }

  function Remaining(q: Queue): int {
    CAPACITY - |Contents(q)|
  }

  /** How much of the first block is consumed; that room only returns with the block. */
  function Consumed(q: Queue): nat {
    if q == [] then 0 else q[0].read
  }

  // ---------- the deque ----------

  lemma {:induction false} ContentsAppend(q: Queue, b: Block)
    ensures Contents(q + [b]) == Contents(q) + Unread(b)
  {
    hide Unread;
    if q == [] {
      assert q + [b] == [b] && [b][1..] == [];
      assert Contents([b]) == Unread(b) + Contents([]);
    } else {
      ContentsAppend(q[1..], b);
      AppendRest(q, b);
      Regroup(Unread(q[0]), Contents(q[1..]), Unread(b));
    }
  }

  lemma AppendRest(q: Queue, b: Block)
    requires q != []
    ensures q + [b] != [] && (q + [b])[0] == q[0] && (q + [b])[1..] == q[1..] + [b]
  {
  }

  lemma SplitTail(q: Queue)
    requires q != []
    ensures q == Init(q) + [Tail(q)] && Contents(q) == Contents(Init(q)) + Unread(Tail(q))
  {
    ContentsAppend(Init(q), Tail(q));
  }

  lemma {:induction false} Occupied(q: Queue)
    requires Inv(q) && q != []
    ensures |Contents(q)| + Consumed(q) == CBLOCK_SIZE * (|q| - 1) + |Tail(q).chars|
  {
    if |q| > 1 {
      var r := q[1..];
      assert forall i :: 0 <= i < |r| ==> r[i] == q[i + 1];
      Occupied(r);
    } else {
      assert q == [q[0]];
    }
  }

  ghost predicate InUse(b: Block) {
    b.read < |b.chars| <= CBLOCK_SIZE
  }

  ghost predicate Full(b: Block) {
    |b.chars| == CBLOCK_SIZE
  }

  lemma InitShape(q: Queue)
    requires Inv(q) && q != []
    ensures Inv(Init(q)) && |Init(q)| < CHARQ_SIZE && InUse(Tail(q))
    ensures Init(q) != [] ==> Full(Tail(Init(q))) && Tail(q).read == 0
    ensures Consumed(q) == if Init(q) == [] then Tail(q).read else Consumed(Init(q))
  {
    var r := Init(q);
    assert forall i :: 0 <= i < |r| ==> r[i] == q[i];
  }

  lemma AppendShape(q: Queue, b: Block)
    requires Inv(q) && |q| < CHARQ_SIZE && InUse(b) && (q != [] ==> Full(Tail(q)) && b.read == 0)
    ensures Inv(q + [b]) && Consumed(q + [b]) == if q == [] then b.read else Consumed(q)
  {
    var r := q + [b];
    assert forall i :: 0 <= i < |q| ==> r[i] == q[i];
  }

  lemma RestShape(q: Queue)
    requires Inv(q) && q != []
    ensures Inv(q[1..]) && Consumed(q[1..]) == 0 && InUse(q[0])
    ensures forall b: Block :: InUse(b) && b.chars == q[0].chars ==> Inv([b] + q[1..])
  {
    forall b: Block | InUse(b) && b.chars == q[0].chars ensures Inv([b] + q[1..]) {
      FirstReplaced(q, b);
    }
    var r := q[1..];
    assert forall i :: 0 <= i < |r| ==> r[i] == q[i + 1];
  }

  lemma FirstReplaced(q: Queue, b: Block)
    requires Inv(q) && q != [] && InUse(b) && b.chars == q[0].chars
    ensures Inv([b] + q[1..])
  {
    var s := [b] + q[1..];
    assert forall i :: 1 <= i < |s| ==> s[i] == q[i];
  }

  lemma DropLastOf(xs: seq<Byte>, ys: seq<Byte>)
    requires ys != []
    ensures (xs + ys)[..|xs + ys| - 1] == xs + ys[..|ys| - 1] && (xs + ys)[|xs + ys| - 1] == ys[|ys| - 1]
  {
  }

  /**
   A put appends, or changes nothing; given memory it succeeds iff the characters held and the consumed
   start leave room.
   */
  ghost predicate PutSpec(q: Queue, c: Byte, memory: bool, r: Queue, ok: bool) {
    && Inv(r) && Consumed(r) == Consumed(q)
    && (ok ==> Contents(r) == Contents(q) + [c])
    && (!ok ==> r == q)
    && (memory ==> (ok <==> |Contents(q)| + Consumed(q) < CAPACITY))
  }

  lemma PutInTail(q: Queue, c: Byte, memory: bool)
    requires Inv(q) && q != [] && |Tail(q).chars| < CBLOCK_SIZE
    ensures PutSpec(q, c, memory, Init(q) + [Block(Tail(q).read, Tail(q).chars + [c])], true)
  {
    Occupied(q);
    InitShape(q);
    SplitTail(q);
    hide Inv, Contents;
    var b := Block(Tail(q).read, Tail(q).chars + [c]);
    AppendShape(Init(q), b);
    ContentsAppend(Init(q), b);
    UnreadMore(Tail(q), c);
    Regroup(Contents(Init(q)), Unread(Tail(q)), [c]);
    hide Unread;
  }

  lemma UnreadMore(b: Block, c: Byte)
    requires InUse(b)
    ensures Unread(Block(b.read, b.chars + [c])) == Unread(b) + [c]
  {
  }

  lemma Regroup(xs: seq<Byte>, ys: seq<Byte>, zs: seq<Byte>)
    ensures (xs + ys) + zs == xs + (ys + zs)
  {
  }

  lemma PutInNewBlock(q: Queue, c: Byte, memory: bool)
    requires Inv(q) && |q| < CHARQ_SIZE && (q != [] ==> Full(Tail(q)))
    ensures PutSpec(q, c, memory, q + [Block(0, [c])], true)
  {
    var b := Block(0, [c]);
    AppendShape(q, b);
    ContentsAppend(q, b);
    assert Unread(b) == [c];
    if q != [] { Occupied(q); }
    hide Inv, Contents;
  }

  lemma PutRefused(q: Queue, c: Byte, memory: bool)
    requires Inv(q) && (q != [] ==> Full(Tail(q))) && !(|q| < CHARQ_SIZE && memory)
    ensures PutSpec(q, c, memory, q, false)
  {
    if q != [] { Occupied(q); }
    hide Inv, Contents;
  }

  lemma PutAppends(q: Queue, c: Byte, memory: bool)
    requires Inv(q)
    ensures PutSpec(q, c, memory, Put(q, c, memory).0, Put(q, c, memory).1)
  {
    if q != [] { InitShape(q); }
    hide Inv, Contents, PutSpec;
    if q != [] && |Tail(q).chars| < CBLOCK_SIZE {
      PutInTail(q, c, memory);
    } else if |q| < CHARQ_SIZE && memory {
      PutInNewBlock(q, c, memory);
    } else {
      PutRefused(q, c, memory);
    }
  }

  /** Unput drops the last character; a queue that becomes empty gives its consumed start back. */
  ghost predicate UnputSpec(q: Queue, r: Queue) {
    && Inv(r)
    && (q == [] ==> r == [])
    && (q != [] ==> Contents(q) != [] && Contents(r) == Contents(q)[..|Contents(q)| - 1])
    && Consumed(r) == (if Contents(r) == [] then 0 else Consumed(q))
  }

  lemma UnputBlock(q: Queue)
    requires Inv(q) && q != [] && Tail(q).read + 1 == |Tail(q).chars|
    ensures UnputSpec(q, Init(q))
  {
    SplitTail(q);
    InitShape(q);
    NonEmpty(Init(q));
    hide Inv, Contents;
    DropLastOf(Contents(Init(q)), Unread(Tail(q)));
    assert Contents(Init(q)) + Unread(Tail(q))[..0] == Contents(Init(q));
  }

  lemma UnputInTail(q: Queue)
    requires Inv(q) && q != [] && Tail(q).read + 1 < |Tail(q).chars|
    ensures var t := Tail(q); UnputSpec(q, Init(q) + [Block(t.read, t.chars[..|t.chars| - 1])])
  {
    hide Inv, Contents;
    var t := Tail(q);
    var t' := Block(t.read, t.chars[..|t.chars| - 1]);
    SplitTail(q);
    InitShape(q);
    DropLastOf(Contents(Init(q)), Unread(t));
    assert Unread(t)[..|Unread(t)| - 1] == Unread(t');
    AppendShape(Init(q), t');
    ContentsAppend(Init(q), t');
    NonEmpty(Init(q) + [t']);
  }

  lemma UnputDropsLast(q: Queue)
    requires Inv(q)
    ensures UnputSpec(q, Unput(q))
  {
    if q != [] {
      InitShape(q);
      hide Inv, Contents, UnputSpec;
      var t := Tail(q);
      if t.read + 1 == |t.chars| {
        UnputBlock(q);
      } else {
        UnputInTail(q);
      }
    }
  }

  lemma EmptyContents()
    ensures Contents([]) == []
  {
  }

  lemma NonEmpty(q: Queue)
    requires Inv(q)
    ensures Contents(q) == [] <==> q == []
  {
  }

  /** Get takes the first character. */
  ghost predicate GetSpec(q: Queue, r: Queue, c: Byte) {
    && Inv(r)
    && (q == [] ==> r == [] && c == 0)
    && (q != [] ==> Contents(q) == [c] + Contents(r))
  }

  lemma GetTakesFirst(q: Queue)
    requires Inv(q)
    ensures GetSpec(q, Get(q).0, Get(q).1)
  {
    hide Inv, Unread;
    if q != [] {
      RestShape(q);
      var c, h := q[0].chars[q[0].read], Block(q[0].read + 1, q[0].chars);
      UnreadFirst(q[0]);
      assert Contents(q) == Unread(q[0]) + Contents(q[1..]);
      Regroup([c], Unread(h), Contents(q[1..]));
      if h.read < |h.chars| {
        assert InUse(h) && ([h] + q[1..])[1..] == q[1..];
        assert Contents([h] + q[1..]) == Unread(h) + Contents(q[1..]);
      } else {
        assert [] + Contents(q[1..]) == Contents(q[1..]);
      }
    }
  }

  lemma UnreadFirst(b: Block)
    requires InUse(b)
    ensures var h := Block(b.read + 1, b.chars);
      Unread(b) == [b.chars[b.read]] + Unread(h) && (h.read == |h.chars| ==> Unread(h) == [])
  {
  }

  lemma LastCharIsLast(q: Queue)
    requires Inv(q)
    ensures q != [] ==> Contents(q) != []
    ensures LastChar(q) == if q == [] then 0 else Contents(q)[|Contents(q)| - 1]
  {
    hide Inv, Contents;
    if q != [] {
      SplitTail(q);
      InitShape(q);
      DropLastOf(Contents(Init(q)), Unread(Tail(q)));
    }
  }

  // ---------- capacity ----------

  /** As many puts as the queue takes. */
  function PutAll(q: Queue, cs: seq<Byte>): (Queue, nat)
    decreases |cs|
  {
    if cs == [] then (q, 0)
    else
      var (r, ok) := Put(q, cs[0], true);
      var (s, n) := PutAll(r, cs[1..]);
      (s, if ok then n + 1 else n)
  }

  /**
   charq_remaining overstates the room by the consumed start of the first block:
   of any characters put in a row, exactly the first Remaining - Consumed get in.
   */
  ghost predicate Takes(q: Queue, cs: seq<Byte>, r: Queue, n: nat) {
    var room := Remaining(q) - Consumed(q);
    && 0 <= room && n == (if |cs| <= room then |cs| else room)
    && Contents(r) == Contents(q) + cs[..n]
  }

  lemma {:induction false} RemainingOverstates(q: Queue, cs: seq<Byte>)
    requires Inv(q)
    ensures Takes(q, cs, PutAll(q, cs).0, PutAll(q, cs).1)
    decreases |cs|
  {
    hide Inv, Contents, Put, PutSpec, Takes;
    if cs == [] {
      TakesNothing(q);
    } else {
      PutAppends(q, cs[0], true);
      var r, ok := Put(q, cs[0], true).0, Put(q, cs[0], true).1;
      ShapeKept(q, cs[0], r, ok);
      RemainingOverstates(r, cs[1..]);
      TakesOneMore(q, cs, r, ok, PutAll(r, cs[1..]).0, PutAll(r, cs[1..]).1);
    }
  }

  lemma TakesNothing(q: Queue)
    requires Inv(q)
    ensures Takes(q, [], q, 0)
  {
    if q != [] { Occupied(q); }
    hide Inv, Contents;
    EmptyContents();
    assert Contents(q) + [] == Contents(q);
  }

  lemma ShapeKept(q: Queue, c: Byte, r: Queue, ok: bool)
    requires PutSpec(q, c, true, r, ok)
    ensures Inv(r)
  {
  }

  lemma FirstOf(cs: seq<Byte>, n: nat)
    requires n < |cs|
    ensures [cs[0]] + cs[1..][..n] == cs[..n + 1]
  {
  }

  lemma TakesOneMore(q: Queue, cs: seq<Byte>, r: Queue, ok: bool, s: Queue, n: nat)
    requires Inv(q) && cs != [] && PutSpec(q, cs[0], true, r, ok) && Takes(r, cs[1..], s, n)
    ensures Takes(q, cs, s, if ok then n + 1 else n)
  {
    if q != [] { Occupied(q); }
    hide Inv, Contents;
    EmptyContents();
    if ok {
      Regroup(Contents(q), [cs[0]], cs[1..][..n]);
      FirstOf(cs, n);
    } else {
      assert n == 0 && cs[1..][..0] == cs[..0];
    }
  }

  // ---------- runs ----------

  datatype Op = PutOp(c: Byte, memory: bool) | UnputOp | GetOp | FlushOp

  function Step(q: Queue, op: Op): Queue {
    match op
    case PutOp(c, m) => Put(q, c, m).0
    case UnputOp => Unput(q)
    case GetOp => Get(q).0
    case FlushOp => []
  }

  function DequeStep(xs: seq<Byte>, op: Op, accepted: bool): seq<Byte> {
    match op
    case PutOp(c, _) => if accepted then xs + [c] else xs
    case UnputOp => if xs == [] then xs else xs[..|xs| - 1]
    case GetOp => if xs == [] then xs else xs[1..]
    case FlushOp => []
  }

  function Accepted(q: Queue, op: Op): bool {
    op.PutOp? && Put(q, op.c, op.memory).1
  }

  lemma StepRefines(q: Queue, op: Op)
    requires Inv(q)
    ensures Inv(Step(q, op)) && Contents(Step(q, op)) == DequeStep(Contents(q), op, Accepted(q, op))
  {
    NonEmpty(q);
    match op
    case PutOp(c, m) => PutAppends(q, c, m);
    case UnputOp => UnputDropsLast(q);
    case GetOp => GetTakesFirst(q);
    case FlushOp =>
  }

  function Run(q: Queue, ops: seq<Op>): Queue
    decreases |ops|
  {
    if ops == [] then q else Run(Step(q, ops[0]), ops[1..])
  }

  function DequeRun(q: Queue, xs: seq<Byte>, ops: seq<Op>): seq<Byte>
    decreases |ops|
  {
    if ops == [] then xs
    else DequeRun(Step(q, ops[0]), DequeStep(xs, ops[0], Accepted(q, ops[0])), ops[1..])
  }

  /** Every run keeps the shape of the chain and is the run of a plain deque with the same puts accepted. */
  lemma {:induction false} RunRefines(q: Queue, ops: seq<Op>)
    requires Inv(q)
    ensures Inv(Run(q, ops)) && Contents(Run(q, ops)) == DequeRun(q, Contents(q), ops)
    decreases |ops|
  {
    if ops != [] {
      StepRefines(q, ops[0]);
      RunRefines(Step(q, ops[0]), ops[1..]);
    }
  }

  /** Eight blocks that hold 255 characters, the first of which is read: two places seem to be left. */
  function Crowded(): (q: Queue)
    ensures |q| == CHARQ_SIZE
  {
    [Block(1, Zeros(CBLOCK_SIZE))] + seq(CHARQ_SIZE - 2, i => Block(0, Zeros(CBLOCK_SIZE)))
      + [Block(0, Zeros(CBLOCK_SIZE - 1))]
  }

  function Zeros(n: nat): (cs: seq<Byte>)
    ensures |cs| == n
  {
    seq(n, i => 0)
  }

  /** Of the two characters charq_remaining promises to take only one gets in. */
  lemma OneOfTwoGetsIn(c: Byte, d: Byte)
    ensures Inv(Crowded()) && Remaining(Crowded()) == 2 && |Tail(Crowded()).chars| == CBLOCK_SIZE - 1
    ensures PutAll(Crowded(), [c, d]).1 == 1
  {
    var q := Crowded();
    assert q[0] == Block(1, Zeros(CBLOCK_SIZE)) && q[7] == Block(0, Zeros(CBLOCK_SIZE - 1));
    assert forall i :: 1 <= i < 7 ==> q[i] == Block(0, Zeros(CBLOCK_SIZE));
    Occupied(q);
    RemainingOverstates(q, [c, d]);
    hide PutAll, Contents, Inv, Crowded;
  }

  /** In numbers: at most eight blocks of at most 32 characters, and all but the last have 32. */
  lemma ShapeInNumbers(q: Queue)
    requires Inv(q)
    ensures |q| <= 8 && forall i :: 0 <= i < |q| ==> |q[i].chars| <= 32 && (i < |q| - 1 ==> |q[i].chars| == 32)
  {
  }

  /** Given memory an empty queue takes 256 characters and no more. */
  lemma TakesTwoHundredFiftySix(cs: seq<Byte>)
    ensures var (r, n) := PutAll([], cs);
      n == (if |cs| <= 256 then |cs| else 256) && Contents(r) == cs[..n]
  {
    RemainingOverstates([], cs);
    EmptyContents();
    hide PutAll;
  }
}
