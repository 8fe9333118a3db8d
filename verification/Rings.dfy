/** Ring buffers: what the slots between two positions hold, read in order. */
module Rings {

  function After(x: nat, n: nat): nat { if x + 1 == n then 0 else x + 1 }

  /** The position `count` places after `tail`. */
  function Along(tail: nat, count: nat, n: nat): int {
    if tail + count < n then tail + count else tail + count - n
  }

  /** The `count` entries from `tail` on. */
  function Entries<T>(slots: seq<T>, tail: nat, count: nat): (r: seq<T>)
    requires tail < |slots| && count <= |slots|
    ensures |r| == count
  {
    if tail + count <= |slots| then slots[tail..tail + count] else slots[tail..] + slots[..tail + count - |slots|]
  }

  lemma Push<T>(slots: seq<T>, tail: nat, count: nat, x: T)
    requires tail < |slots| && count < |slots|
    ensures 0 <= Along(tail, count, |slots|) < |slots|
    ensures Entries(slots[Along(tail, count, |slots|) := x], tail, count + 1) == Entries(slots, tail, count) + [x]
  {}

  lemma Pop<T>(slots: seq<T>, tail: nat, count: nat)
    requires tail < |slots| && 0 < count <= |slots|
    ensures Entries(slots, tail, count) == [slots[tail]] + Entries(slots, After(tail, |slots|), count - 1)
  {}

  /** The slot before the oldest entry is not read as long as the ring is not full. */
  lemma Cleared<T>(slots: seq<T>, tail: nat, count: nat, x: T)
    requires tail < |slots| && count < |slots|
    ensures Entries(slots[tail := x], After(tail, |slots|), count) == Entries(slots, After(tail, |slots|), count)
  {}

  /** The entries from `tail` up to `head`; equal positions mean none. */
  function Between<T>(slots: seq<T>, head: nat, tail: nat): (r: seq<T>)
    requires head < |slots| && tail < |slots|
    ensures |r| == if tail <= head then head - tail else head + |slots| - tail
  {
    if tail <= head then slots[tail..head] else slots[tail..] + slots[..head]
  }

  /** The slot at `head` is not yet part of the ring. */
  lemma Unpublished<T>(slots: seq<T>, head: nat, tail: nat, x: T)
    requires head < |slots| && tail < |slots|
    ensures Between(slots[head := x], head, tail) == Between(slots, head, tail)
  {}

  lemma Publish<T>(slots: seq<T>, head: nat, tail: nat)
    requires head < |slots| && tail < |slots| && After(head, |slots|) != tail
    ensures Between(slots, After(head, |slots|), tail) == Between(slots, head, tail) + [slots[head]]
  {}

  lemma Take<T>(slots: seq<T>, head: nat, tail: nat)
    requires head < |slots| && tail < |slots| && head != tail
    ensures Between(slots, head, tail) == [slots[tail]] + Between(slots, head, After(tail, |slots|))
  {}
}
