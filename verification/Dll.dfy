/**
 The NULL-terminated doubly linked lists of the kernel: buddy free lists, the
 run list, sleep buckets and the process list. Objects live in a flat address
 space, so a list is a head pointer plus the `next` and `prev` fields of every
 object, each kept as a map from object address to field value.
 */
module Dll {
  const NULL: nat := 0

  type Links = map<nat, nat>

  /** The pointer stored for position `i` of the list `xs`. */
  function At(xs: seq<nat>, i: int): nat {
    if 0 <= i < |xs| then xs[i] else NULL
  }

  predicate NoDup(xs: seq<nat>) {
    forall i, j :: 0 <= i < j < |xs| ==> xs[i] != xs[j]
  }

  /** Every object of `xs` points at its neighbours. */
  predicate Linked(next: Links, prev: Links, ys: seq<nat>) {
    && (forall i {:trigger next[ys[i]]} {:trigger ys[i] in next} :: 0 <= i < |ys| ==>
          ys[i] in next && next[ys[i]] == At(ys, i + 1))
    && (forall i {:trigger prev[ys[i]]} {:trigger ys[i] in prev} :: 0 <= i < |ys| ==>
          ys[i] in prev && prev[ys[i]] == At(ys, i - 1))
  }

  /** `head`, `next` and `prev` link up exactly the objects `xs`, in that order. */
  predicate Listed(head: nat, next: Links, prev: Links, xs: seq<nat>) {
    && NoDup(xs)
    && NULL !in xs
    && head == At(xs, 0)
    && Linked(next, prev, xs)
  }

  function Without(xs: seq<nat>, k: nat): seq<nat>
    requires k < |xs|
  {
    xs[..k] + xs[k + 1..]
  }

  function Delete(xs: seq<nat>, p: nat): seq<nat> {
    if xs == [] then [] else if xs[0] == p then xs[1..] else [xs[0]] + Delete(xs[1..], p)
  }

  lemma {:induction false} DeleteFacts(xs: seq<nat>, p: nat)
    requires NoDup(xs)
    ensures NoDup(Delete(xs, p)) && forall a :: a in Delete(xs, p) <==> a in xs && a != p
    ensures |Delete(xs, p)| == if p in xs then |xs| - 1 else |xs|
  {
    if xs != [] {
      assert xs == [xs[0]] + xs[1..] && xs[0] !in xs[1..];
      DeleteFacts(xs[1..], p);
    }
  }

  lemma {:induction false} DeleteIsWithout(xs: seq<nat>, k: nat)
    requires NoDup(xs) && k < |xs|
    ensures Delete(xs, xs[k]) == Without(xs, k)
  {
    if k > 0 {
      assert xs[0] != xs[k] && xs[1..][k - 1] == xs[k];
      DeleteIsWithout(xs[1..], k - 1);
      assert Without(xs, k) == [xs[0]] + Without(xs[1..], k - 1);
    }
  }

  lemma {:induction false} DeleteAbsent(xs: seq<nat>, p: nat)
    requires p !in xs
    ensures Delete(xs, p) == xs
  {
    if xs != [] { DeleteAbsent(xs[1..], p); }
  }

  /** The `next` field of every object after `b` is unlinked. */
  function UnlinkNext(next: Links, prev: Links, b: nat): Links
    requires b in next && b in prev
  {
    if prev[b] != NULL then next[prev[b] := next[b]] else next
  }

  /** The `prev` field of every object after `b` is unlinked. */
  function UnlinkPrev(next: Links, prev: Links, b: nat): Links
    requires b in next && b in prev
  {
    if next[b] != NULL then prev[next[b] := prev[b]] else prev
  }

  lemma UnlinkKeepsListed(head: nat, next: Links, prev: Links, xs: seq<nat>, k: nat)
    requires Listed(head, next, prev, xs) && k < |xs|
    ensures var b := xs[k];
      Listed(if head == b then next[b] else head, UnlinkNext(next, prev, b), UnlinkPrev(next, prev, b), Without(xs, k))
  {
  }

  lemma UnlinkKeepsOther(head: nat, next: Links, prev: Links, b: nat, xs: seq<nat>, other: nat, ys: seq<nat>)
    requires Listed(head, next, prev, xs) && b in xs
    requires Listed(other, next, prev, ys)
    requires forall a :: a in xs ==> a !in ys
    ensures Listed(other, UnlinkNext(next, prev, b), UnlinkPrev(next, prev, b), ys)
  {
    var k :| 0 <= k < |xs| && xs[k] == b;
    assert next[b] == At(xs, k + 1) && prev[b] == At(xs, k - 1);
    if prev[b] != NULL { assert prev[b] in xs; }
    if next[b] != NULL { assert next[b] in xs; }
  }

  /** The `prev` field of every object after `b` is pushed in front of `head`. */
  function PushPrev(prev: Links, head: nat, b: nat): Links {
    if head != NULL then prev[b := NULL][head := b] else prev[b := NULL]
  }

  lemma PushKeepsListed(head: nat, next: Links, prev: Links, xs: seq<nat>, b: nat)
    requires Listed(head, next, prev, xs) && b != NULL && b !in xs
    ensures Listed(b, next[b := head], PushPrev(prev, head, b), [b] + xs)
  {
  }

  lemma PushKeepsOther(head: nat, next: Links, prev: Links, xs: seq<nat>, b: nat, other: nat, ys: seq<nat>)
    requires Listed(head, next, prev, xs) && b !in ys
    requires Listed(other, next, prev, ys)
    requires forall a :: a in xs ==> a !in ys
    ensures Listed(other, next[b := head], PushPrev(prev, head, b), ys)
  {
    if head != NULL { assert head in xs; }
  }
}
