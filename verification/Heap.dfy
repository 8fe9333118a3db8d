/**
The kernel heap: a doubly linked list of block headers that is split by
allocation and coalesced by release.

The headers live in `headers`, keyed by their address, apart from the payload
bytes. The abstract heap is the sequence of blocks in address order; `Step` is
its transition function and every method of `KernelHeap` refines it.
*/
module Heap {
  import opened Common
  import opened Counting
  import Pmm

  const HEADER: nat := 32
  const ALIGNMENT: nat := 16
  const MAGIC: nat := 0xA86B10C5

  // ---------------------------------------------------------------- blocks

  datatype Block = Block(address: nat, size: nat, free: bool) {
    function Payload(): nat { address + HEADER }
    function End(): nat { address + HEADER + size }
  }

  predicate Aligned(n: nat) { n % 16 == 0 }

  /**
  The blocks lie end to end from `from` to `limit`, each with an aligned, non-empty
  payload, and no two free blocks touch; `afterFree` says whether a free block ends at `from`.
  */
  ghost predicate Chain(bs: seq<Block>, from: nat, afterFree: bool, limit: nat) {
    if bs == [] then from == limit
    else
      && bs[0].address == from && bs[0].size > 0 && Aligned(bs[0].size)
      && !(afterFree && bs[0].free)
      && Chain(bs[1..], bs[0].End(), bs[0].free, limit)
  }

  ghost predicate WellFormed(bs: seq<Block>, base: nat, limit: nat) {
    |bs| > 0 && Chain(bs, base, false, limit)
  }

  /** The blocks that are handed out. */
  ghost function Live(bs: seq<Block>): set<Block> {
    set b | b in bs && !b.free
  }

  ghost function EndOf(bs: seq<Block>, from: nat): nat {
    if bs == [] then from else bs[|bs| - 1].End()
  }

  ghost function EndsFree(bs: seq<Block>, afterFree: bool): bool {
    if bs == [] then afterFree else bs[|bs| - 1].free
  }

  lemma {:induction false} ChainConcat(xs: seq<Block>, ys: seq<Block>, from: nat, afterFree: bool, limit: nat)
    ensures Chain(xs + ys, from, afterFree, limit)
      <==> && Chain(xs, from, afterFree, EndOf(xs, from))
           && Chain(ys, EndOf(xs, from), EndsFree(xs, afterFree), limit)
  {
    if xs == [] {
      assert xs + ys == ys;
    } else {
      assert (xs + ys)[1..] == xs[1..] + ys;
      ChainConcat(xs[1..], ys, xs[0].End(), xs[0].free, limit);
    }
  }

  /** Everything in a chain lies after its start and before its limit, in order. */
  lemma {:induction false} ChainOrder(bs: seq<Block>, from: nat, afterFree: bool, limit: nat)
    requires Chain(bs, from, afterFree, limit)
    ensures from <= limit
    ensures forall i :: 0 <= i < |bs| ==> from <= bs[i].address && bs[i].End() <= limit
    ensures forall i, j :: 0 <= i < j < |bs| ==> bs[i].End() <= bs[j].address
    ensures forall i :: 0 <= i < |bs| ==> bs[i].size > 0
  {
    if bs != [] {
      ChainOrder(bs[1..], bs[0].End(), bs[0].free, limit);
      assert forall i :: 0 < i < |bs| ==> bs[i] == bs[1..][i - 1];
    }
  }

  lemma {:induction false} ChainLinks(bs: seq<Block>, from: nat, afterFree: bool, limit: nat, i: nat)
    requires Chain(bs, from, afterFree, limit) && i < |bs|
    ensures bs[i].address == if i == 0 then from else bs[i - 1].End()
    ensures i + 1 == |bs| ==> bs[i].End() == limit
    ensures i > 0 ==> !(bs[i - 1].free && bs[i].free)
    ensures bs[i].size > 0 && Aligned(bs[i].size)
    ensures Aligned(from) ==> Aligned(bs[i].address) && Aligned(bs[i].Payload())
  {
    if i > 0 {
      ChainLinks(bs[1..], bs[0].End(), bs[0].free, limit, i - 1);
    }
  }

  /** Two different live payloads never share a byte. */
  lemma LiveDisjoint(bs: seq<Block>, base: nat, limit: nat, b: Block, c: Block)
    requires WellFormed(bs, base, limit) && b in Live(bs) && c in Live(bs) && b != c
    ensures b.End() <= c.address || c.End() <= b.address
    ensures b.Payload() != c.Payload()
  {
    ChainOrder(bs, base, false, limit);
    var i :| 0 <= i < |bs| && bs[i] == b;
    var j :| 0 <= j < |bs| && bs[j] == c;
    assert i != j;
  }

  /** Replacing blocks lo..hi takes exactly their live ones out of the live set. */
  lemma LiveSplice(bs: seq<Block>, base: nat, limit: nat, lo: nat, hi: nat, mid: seq<Block>)
    requires WellFormed(bs, base, limit) && lo <= hi <= |bs|
    ensures Live(bs[..lo] + mid + bs[hi..]) == Live(bs) - Live(bs[lo..hi]) + Live(mid)
  {
    ChainOrder(bs, base, false, limit);
    assert bs == bs[..lo] + bs[lo..hi] + bs[hi..];
    forall b | b in bs[lo..hi] ensures b !in bs[..lo] && b !in bs[hi..] {
      var i :| lo <= i < hi && bs[i] == b;
    }
  }

  /** A stretch may be replaced by any chain over the same bytes that keeps free blocks apart. */
  lemma ChainReplace(pre: seq<Block>, was: seq<Block>, mid: seq<Block>, post: seq<Block>, base: nat, limit: nat)
    requires Chain(pre + (was + post), base, false, limit)
    requires Chain(mid, EndOf(pre, base), EndsFree(pre, false), EndOf(was, EndOf(pre, base)))
    requires post != [] ==> !(EndsFree(mid, EndsFree(pre, false)) && post[0].free)
    ensures Chain(pre + (mid + post), base, false, limit)
  {
    var e, f := EndOf(pre, base), EndsFree(pre, false);
    ChainConcat(pre, was + post, base, false, limit);
    ChainConcat(was, post, e, f, limit);
    ChainEnd(mid, e, f, EndOf(was, e));
    ChainConcat(mid, post, e, f, limit);
    ChainConcat(pre, mid + post, base, false, limit);
  }

  lemma ChainSplice(bs: seq<Block>, base: nat, limit: nat, lo: nat, hi: nat, mid: seq<Block>)
    requires WellFormed(bs, base, limit) && lo < hi <= |bs| && |mid| > 0
    requires Chain(mid, bs[lo].address, lo > 0 && bs[lo - 1].free, bs[hi - 1].End())
    requires hi < |bs| ==> !(mid[|mid| - 1].free && bs[hi].free)
    ensures WellFormed(bs[..lo] + mid + bs[hi..], base, limit)
  {
    var pre, was, post := bs[..lo], bs[lo..hi], bs[hi..];
    assert EndOf(pre, base) == bs[lo].address by { ChainLinks(bs, base, false, limit, lo); }
    assert EndsFree(pre, false) == (lo > 0 && bs[lo - 1].free);
    assert EndOf(was, bs[lo].address) == bs[hi - 1].End();
    ThreeParts(bs, lo, hi, mid);
    ChainReplace(pre, was, mid, post, base, limit);
  }

  lemma ThreeParts<T>(s: seq<T>, lo: nat, hi: nat, mid: seq<T>)
    requires lo <= hi <= |s|
    ensures s == s[..lo] + (s[lo..hi] + s[hi..])
    ensures s[..lo] + (mid + s[hi..]) == s[..lo] + mid + s[hi..]
  {}

  lemma {:induction false} ChainEnd(bs: seq<Block>, from: nat, afterFree: bool, limit: nat)
    requires Chain(bs, from, afterFree, limit)
    ensures EndOf(bs, from) == limit
  {
    if bs != [] { ChainEnd(bs[1..], bs[0].End(), bs[0].free, limit); }
  }

  // ------------------------------------------------------------- allocation

  /** The request rounded up to the alignment; 0 when it is 0 or would not fit in 64 bits. */
  function AlignSize(n: nat): (r: nat)
    ensures Aligned(r) && r < U64
    ensures r == 0 <==> n == 0 || n > U64 - 16
    ensures r != 0 ==> n <= r < n + 16
  {
    if n > U64 - 1 - 15 then 0 else (n + 15) / 16 * 16
  }

  predicate Fits(b: Block, size: nat) { b.free && size <= b.size }

  /** The first block at or after `from` that fits, or |bs|. */
  function FirstFit(bs: seq<Block>, size: nat, from: nat): (i: nat)
    requires from <= |bs|
    ensures from <= i <= |bs| && (i < |bs| ==> Fits(bs[i], size))
    ensures forall j :: from <= j < i ==> !Fits(bs[j], size)
    decreases |bs| - from
  {
    if from == |bs| || Fits(bs[from], size) then from else FirstFit(bs, size, from + 1)
  }

  /** What block `b` becomes when `size` bytes are taken; the tail is split off if it can hold a header and 16 bytes. */
  function Taken(b: Block, size: nat): (r: seq<Block>)
    requires size <= b.size
    ensures |r| > 0
  {
    if b.size >= size + HEADER + 16 then
      [Block(b.address, size, false),
       Block(b.address + HEADER + size, b.size - size - HEADER, true)]
    else
      [b.(free := false)]
  }

  function Allocate(bs: seq<Block>, i: nat, size: nat): seq<Block>
    requires i < |bs| && size <= bs[i].size
  {
    bs[..i] + Taken(bs[i], size) + bs[i + 1..]
  }

  lemma AllocateKeeps(bs: seq<Block>, base: nat, limit: nat, i: nat, size: nat)
    requires WellFormed(bs, base, limit)
    requires i < |bs| && Fits(bs[i], size) && size > 0 && Aligned(size)
    ensures WellFormed(Allocate(bs, i, size), base, limit)
  {
    ChainLinks(bs, base, false, limit, i);
    if i + 1 < |bs| { ChainLinks(bs, base, false, limit, i + 1); }
    TakenChain(bs[i], size, i > 0 && bs[i - 1].free);
    ChainSplice(bs, base, limit, i, i + 1, Taken(bs[i], size));
  }

  lemma TakenChain(b: Block, size: nat, afterFree: bool)
    requires Fits(b, size) && size > 0 && Aligned(size) && Aligned(b.size)
    ensures Chain(Taken(b, size), b.address, afterFree, b.End())
  {}

  /** Allocation adds one block, which overlaps no live one, to the live set. */
  lemma AllocateLive(bs: seq<Block>, base: nat, limit: nat, i: nat, size: nat)
    requires WellFormed(bs, base, limit) && i < |bs| && Fits(bs[i], size)
    ensures var b := Taken(bs[i], size)[0];
      && Live(Allocate(bs, i, size)) == Live(bs) + {b} && b !in Live(bs)
      && b.address == bs[i].address && size <= b.size < size + HEADER + 16
  {
    var mid := Taken(bs[i], size);
    LiveSplice(bs, base, limit, i, i + 1, mid);
    ChainOrder(bs, base, false, limit);
    assert Live(bs[i..i + 1]) == {};
    assert Live(mid) == {mid[0]};
  }

  // ---------------------------------------------------------------- release

  /** Block `i` swallows its successor when that one is free. */
  function MergeNext(bs: seq<Block>, i: nat): (r: seq<Block>)
    requires i < |bs|
    ensures |r| > i && r[..i] == bs[..i]
  {
    if i + 1 < |bs| && bs[i + 1].free then
      bs[..i] + [bs[i].(size := bs[i].size + HEADER + bs[i + 1].size)] + bs[i + 2..]
    else bs
  }

  /** Block `i` freed and merged with its free neighbours. */
  function Release(bs: seq<Block>, i: nat): seq<Block>
    requires i < |bs|
  {
    var merged := MergeNext(bs[i := bs[i].(free := true)], i);
    if i > 0 && bs[i - 1].free then MergeNext(merged, i - 1) else merged
  }

  /** First and last-plus-one of the blocks that freeing block `i` joins into one. */
  function Lo(bs: seq<Block>, i: nat): nat
    requires i < |bs|
  { if i > 0 && bs[i - 1].free then i - 1 else i }

  function Hi(bs: seq<Block>, i: nat): nat
    requires i < |bs|
  { if i + 1 < |bs| && bs[i + 1].free then i + 2 else i + 1 }

  lemma ReleaseShape(bs: seq<Block>, i: nat) returns (m: Block)
    requires i < |bs|
    ensures Release(bs, i) == bs[..Lo(bs, i)] + [m] + bs[Hi(bs, i)..]
    ensures m.free && m.address == bs[Lo(bs, i)].address
    ensures m.size == bs[i].size + (if Lo(bs, i) < i then HEADER + bs[i - 1].size else 0)
                                 + (if Hi(bs, i) > i + 1 then HEADER + bs[i + 1].size else 0)
  {
    var freed := bs[i := bs[i].(free := true)];
    var merged := MergeNext(freed, i);
    assert freed[..i] == bs[..i];
    if Hi(bs, i) > i + 1 {
      assert freed[i + 2..] == bs[i + 2..];
    } else {
      assert freed == bs[..i] + [freed[i]] + bs[i + 1..];
    }
    assert merged == bs[..i] + [merged[i]] + bs[Hi(bs, i)..];
    m := merged[i];
    if Lo(bs, i) < i {
      m := bs[i - 1].(size := bs[i - 1].size + HEADER + merged[i].size);
      assert merged[..i - 1] == bs[..i - 1] && merged[i + 1..] == bs[Hi(bs, i)..];
    }
  }

  lemma SingleChain(m: Block, afterFree: bool)
    requires m.size > 0 && Aligned(m.size) && !(afterFree && m.free)
    ensures Chain([m], m.address, afterFree, m.End())
  {}

  lemma AlignedSum(a: nat, b: nat)
    requires Aligned(a) && Aligned(b)
    ensures Aligned(a + HEADER + b)
  {}

  lemma JoinedSize(bs: seq<Block>, i: nat, m: Block)
    requires i < |bs| && bs[i].size > 0 && Aligned(bs[i].size)
    requires Lo(bs, i) < i ==> Aligned(bs[i - 1].size) && bs[i].address == bs[i - 1].End()
    requires Hi(bs, i) > i + 1 ==> Aligned(bs[i + 1].size) && bs[i + 1].address == bs[i].End()
    requires m.address == bs[Lo(bs, i)].address
    requires m.size == bs[i].size + (if Lo(bs, i) < i then HEADER + bs[i - 1].size else 0)
                                  + (if Hi(bs, i) > i + 1 then HEADER + bs[i + 1].size else 0)
    ensures m.size > 0 && Aligned(m.size) && m.End() == bs[Hi(bs, i) - 1].End()
  {
    var size := bs[i].size;
    if Hi(bs, i) > i + 1 {
      AlignedSum(size, bs[i + 1].size);
      size := size + HEADER + bs[i + 1].size;
    }
    if Lo(bs, i) < i { AlignedSum(bs[i - 1].size, size); }
  }

  /** The joined block covers exactly the blocks it replaces. */
  lemma ReleasedBlock(bs: seq<Block>, base: nat, limit: nat, i: nat) returns (m: Block)
    requires WellFormed(bs, base, limit) && i < |bs| && !bs[i].free
    ensures Release(bs, i) == bs[..Lo(bs, i)] + [m] + bs[Hi(bs, i)..]
    ensures m.free && m.size > 0 && Aligned(m.size)
    ensures m.address == bs[Lo(bs, i)].address && m.End() == bs[Hi(bs, i) - 1].End()
  {
    m := ReleaseShape(bs, i);
    ChainLinks(bs, base, false, limit, i);
    if Hi(bs, i) > i + 1 { ChainLinks(bs, base, false, limit, i + 1); }
    if Lo(bs, i) < i { ChainLinks(bs, base, false, limit, i - 1); }
    JoinedSize(bs, i, m);
  }

  lemma ReleaseKeeps(bs: seq<Block>, base: nat, limit: nat, i: nat)
    requires WellFormed(bs, base, limit) && i < |bs| && !bs[i].free
    ensures WellFormed(Release(bs, i), base, limit)
  {
    var lo, hi := Lo(bs, i), Hi(bs, i);
    var m := ReleasedBlock(bs, base, limit, i);
    if lo > 0 { ChainLinks(bs, base, false, limit, lo); }
    if hi < |bs| { ChainLinks(bs, base, false, limit, hi); }
    SingleChain(m, lo > 0 && bs[lo - 1].free);
    ChainSplice(bs, base, limit, lo, hi, [m]);
  }

  /** Freeing a live block takes that block alone out of the live set. */
  lemma ReleaseLive(bs: seq<Block>, base: nat, limit: nat, i: nat)
    requires WellFormed(bs, base, limit) && i < |bs| && !bs[i].free
    ensures Live(Release(bs, i)) == Live(bs) - {bs[i]}
  {
    var lo, hi := Lo(bs, i), Hi(bs, i);
    var m := ReleaseShape(bs, i);
    LiveSplice(bs, base, limit, lo, hi, [m]);
    assert Live([m]) == {};
    assert Live(bs[lo..hi]) == {bs[i]};
  }

  // -------------------------------------------------------------------- runs

  datatype Op = Malloc(requested: nat) | Free(pointer: nat)

  /** Index of the live block whose payload starts at `pointer`, or |bs|. */
  function LiveIndex(bs: seq<Block>, pointer: nat, from: nat): (i: nat)
    requires from <= |bs|
    ensures from <= i <= |bs|
    ensures i < |bs| ==> !bs[i].free && bs[i].Payload() == pointer
    ensures i == |bs| ==> forall j :: from <= j < |bs| ==> bs[j].free || bs[j].Payload() != pointer
    decreases |bs| - from
  {
    if from == |bs| || (!bs[from].free && bs[from].Payload() == pointer) then from
    else LiveIndex(bs, pointer, from + 1)
  }

  function Step(bs: seq<Block>, op: Op): seq<Block> {
    match op
    case Malloc(requested) =>
      var size := AlignSize(requested);
      var i := FirstFit(bs, size, 0);
      if size == 0 || i == |bs| then bs else Allocate(bs, i, size)
    case Free(pointer) =>
      var i := LiveIndex(bs, pointer, 0);
      if i == |bs| then bs else Release(bs, i)
  }

  function Run(bs: seq<Block>, ops: seq<Op>): seq<Block>
    decreases |ops|
  {
    if ops == [] then bs else Run(Step(bs, ops[0]), ops[1..])
  }

  /** The single free block a fresh heap starts with. */
  function Fresh(base: nat, limit: nat): seq<Block>
    requires base + HEADER <= limit
  {
    [Block(base, limit - base - HEADER, true)]
  }

  /** Every run of allocations and releases keeps the heap tiled and coalesced. */
  lemma {:induction false} RunKeeps(bs: seq<Block>, base: nat, limit: nat, ops: seq<Op>)
    requires WellFormed(bs, base, limit)
    ensures WellFormed(Run(bs, ops), base, limit)
    decreases |ops|
  {
    if ops != [] {
      StepKeeps(bs, base, limit, ops[0]);
      RunKeeps(Step(bs, ops[0]), base, limit, ops[1..]);
    }
  }

  lemma StepKeeps(bs: seq<Block>, base: nat, limit: nat, op: Op)
    requires WellFormed(bs, base, limit)
    ensures WellFormed(Step(bs, op), base, limit)
  {
    match op
    case Malloc(requested) =>
      var size := AlignSize(requested);
      var i := FirstFit(bs, size, 0);
      if size != 0 && i < |bs| { AllocateKeeps(bs, base, limit, i, size); }
    case Free(pointer) =>
      var i := LiveIndex(bs, pointer, 0);
      if i < |bs| { ReleaseKeeps(bs, base, limit, i); }
  }

  // ------------------------------------------------------------ conservation

  function FreeBytes(bs: seq<Block>): nat {
    if bs == [] then 0
    else FreeBytes(bs[..|bs| - 1]) + if bs[|bs| - 1].free then bs[|bs| - 1].size else 0
  }

  function UsedBytes(bs: seq<Block>): nat {
    if bs == [] then 0
    else UsedBytes(bs[..|bs| - 1]) + if bs[|bs| - 1].free then 0 else bs[|bs| - 1].size
  }

  /** Free bytes, used bytes and one header for each block beyond the first make up the heap. */
  lemma {:induction false} Conservation(bs: seq<Block>, base: nat, limit: nat)
    requires WellFormed(bs, base, limit)
    ensures FreeBytes(bs) + UsedBytes(bs) + 32 * (|bs| - 1) == limit - base - HEADER
    decreases |bs|
  {
    var front, last := bs[..|bs| - 1], bs[|bs| - 1];
    assert bs == front + [last];
    ChainConcat(front, [last], base, false, limit);
    if |bs| > 1 {
      Conservation(front, base, last.address);
    }
  }

  /** With nothing live, coalescing leaves exactly the block the heap started with. */
  lemma AllFreeIsFresh(bs: seq<Block>, base: nat, limit: nat)
    requires WellFormed(bs, base, limit) && Live(bs) == {}
    ensures base + HEADER <= limit && bs == Fresh(base, limit)
  {
    assert forall i :: 0 <= i < |bs| && !bs[i].free ==> bs[i] in Live(bs);
    ChainLinks(bs, base, false, limit, |bs| - 1);
    ChainOrder(bs, base, false, limit);
  }

  function Frees(pointers: seq<nat>): seq<Op> {
    seq(|pointers|, i requires 0 <= i < |pointers| => Free(pointers[i]))
  }

  ghost function Pointers(bs: seq<Block>): set<nat> {
    set b | b in Live(bs) :: b.Payload()
  }

  lemma FreeRemovesPointer(bs: seq<Block>, base: nat, limit: nat, pointer: nat)
    requires WellFormed(bs, base, limit) && pointer in Pointers(bs)
    ensures Pointers(Step(bs, Free(pointer))) == Pointers(bs) - {pointer}
  {
    var b :| b in Live(bs) && b.Payload() == pointer;
    var i := LiveIndex(bs, pointer, 0);
    assert i < |bs|;
    ReleaseLive(bs, base, limit, i);
    assert bs[i] in Live(bs);
    forall c | c in Live(bs) && c != bs[i] ensures c.Payload() != pointer {
      LiveDisjoint(bs, base, limit, bs[i], c);
    }
    assert Live(Step(bs, Free(pointer))) == Live(bs) - {bs[i]};
  }

  lemma SetOfRest(order: seq<nat>)
    requires order != [] && forall i, j :: 0 <= i < j < |order| ==> order[i] != order[j]
    ensures order[0] in (set p | p in order)
    ensures (set p | p in order[1..]) == (set p | p in order) - {order[0]}
  {}

  /** Freeing every live allocation, in any order, restores the single initial block. */
  lemma {:induction false} FreeAllRestores(bs: seq<Block>, base: nat, limit: nat, order: seq<nat>)
    requires WellFormed(bs, base, limit)
    requires forall i, j :: 0 <= i < j < |order| ==> order[i] != order[j]
    requires (set p | p in order) == Pointers(bs)
    ensures base + HEADER <= limit && Run(bs, Frees(order)) == Fresh(base, limit)
    decreases |order|
  {
    if order == [] {
      assert forall b :: b in Live(bs) ==> b.Payload() in Pointers(bs);
      AllFreeIsFresh(bs, base, limit);
    } else {
      var first, rest := order[0], order[1..];
      SetOfRest(order);
      FreeRemovesPointer(bs, base, limit, first);
      StepKeeps(bs, base, limit, Free(first));
      FreeAllRestores(Step(bs, Free(first)), base, limit, rest);
      FreesOf(order);
    }
  }

  lemma FreesOf(order: seq<nat>)
    requires order != []
    ensures Frees(order) == [Free(order[0])] + Frees(order[1..])
  {}

  // ----------------------------------------------------------------- headers

  /** A block header as it lies in memory; the address 0 is the null pointer. */
  datatype Header = Header(size: nat, previous: nat, next: nat, magic: nat, free: bool)

  ghost function HeaderAt(bs: seq<Block>, i: nat): Header
    requires i < |bs|
  {
    Header(bs[i].size,
           if i > 0 then bs[i - 1].address else 0,
           if i + 1 < |bs| then bs[i + 1].address else 0,
           MAGIC, bs[i].free)
  }

  ghost predicate HasHeader(h: map<nat, Header>, bs: seq<Block>, i: nat)
    requires i < |bs|
  {
    bs[i].address in h && h[bs[i].address] == HeaderAt(bs, i)
  }

  /** Every block has its header, linked to both neighbours. */
  ghost predicate Linked(h: map<nat, Header>, bs: seq<Block>) {
    forall i :: 0 <= i < |bs| ==> HasHeader(h, bs, i)
  }

  ghost predicate Starts(bs: seq<Block>, a: nat) {
    exists i :: 0 <= i < |bs| && bs[i].address == a
  }

  /** No header outside the list carries the magic number. */
  ghost predicate NoStrays(h: map<nat, Header>, bs: seq<Block>) {
    forall a :: a in h && h[a].magic == MAGIC ==> Starts(bs, a)
  }

  /** `at` gives each header address its position, so different blocks have different addresses. */
  ghost predicate Indexed(bs: seq<Block>, at: map<nat, nat>) {
    forall i :: 0 <= i < |bs| ==> 0 < bs[i].address && bs[i].address in at && at[bs[i].address] == i
  }

  lemma {:induction false} ChainIndexed(bs: seq<Block>, from: nat, afterFree: bool, limit: nat)
    returns (at: map<nat, nat>)
    requires Chain(bs, from, afterFree, limit) && from > 0
    ensures Indexed(bs, at)
    ensures forall a :: a in at ==> a < limit
  {
    if bs == [] {
      at := map[];
    } else {
      var front, last := bs[..|bs| - 1], bs[|bs| - 1];
      assert bs == front + [last];
      ChainConcat(front, [last], from, afterFree, limit);
      var before := ChainIndexed(front, from, afterFree, last.address);
      assert from <= last.address < limit by { ChainOrder(bs, from, afterFree, limit); }
      at := before[last.address := |bs| - 1];
      assert forall i :: 0 <= i < |front| ==>
        front[i] == bs[i] && front[i].address in before && front[i].address < last.address;
    }
  }

  ghost predicate Represents(h: map<nat, Header>, bs: seq<Block>) {
    Linked(h, bs) && NoStrays(h, bs)
  }

  function Unlink(h: map<nat, Header>, block: nat, next: nat): map<nat, Header>
    requires block in h && next in h && (h[next].next != 0 ==> h[next].next in h)
  {
    var after := h[next].next;
    var h1 := h[block := h[block].(size := h[block].size + HEADER + h[next].size, next := after)];
    var h2 := if after == 0 then h1 else h1[after := h1[after].(previous := block)];
    h2[next := h2[next].(magic := 0)]
  }

  lemma PagePayload(size: nat)
    requires size % 4096 == 0 && 0 < size
    ensures size > HEADER && Aligned(size - HEADER)
  {
    Sixteenths(size / 4096);
  }

  lemma Sixteenths(k: nat)
    requires k > 0
    ensures k * 4096 - HEADER > 0 && Aligned(k * 4096 - HEADER)
  {
    assert k * 4096 - HEADER == 16 * (256 * k - 2);
  }

  lemma FreshBlock(base: nat, size: nat)
    requires 0 < base && size > HEADER && Aligned(size - HEADER)
    ensures WellFormed(Fresh(base, base + size), base, base + size)
    ensures Represents(map[base := Header(size - HEADER, 0, 0, MAGIC, true)], Fresh(base, base + size))
  {
    var bs := Fresh(base, base + size);
    SingleChain(bs[0], false);
    assert HasHeader(map[base := Header(size - HEADER, 0, 0, MAGIC, true)], bs, 0);
  }

  /** One free block over the whole heap and its header. */
  lemma FreshHeap(base: nat, size: nat)
    requires base % 4096 == 0 && 0 < base && size % 4096 == 0 && 0 < size
    ensures WellFormed(Fresh(base, base + size), base, base + size)
    ensures Represents(map[base := Header(size - HEADER, 0, 0, MAGIC, true)], Fresh(base, base + size))
  {
    PagePayload(size);
    FreshBlock(base, size);
  }

  /** A header with the magic number that is not free belongs to a live block. */
  lemma HeaderIsLive(h: map<nat, Header>, bs: seq<Block>, block: nat)
    requires Represents(h, bs) && block in h && h[block].magic == MAGIC && !h[block].free
    ensures block + HEADER in Pointers(bs)
  {
    assert Starts(bs, block);
    var i :| 0 <= i < |bs| && bs[i].address == block;
    assert HasHeader(h, bs, i);
    assert bs[i] in Live(bs);
  }

  lemma MergedLink(h: map<nat, Header>, bs: seq<Block>, at: map<nat, nat>, i: nat, k: nat)
    requires Linked(h, bs) && Indexed(bs, at) && i + 1 < |bs| && bs[i + 1].free
    requires bs[i].address in h && bs[i + 1].address in h
    requires h[bs[i + 1].address].next != 0 ==> h[bs[i + 1].address].next in h
    requires k < |MergeNext(bs, i)|
    ensures var h' := Unlink(h, bs[i].address, bs[i + 1].address);
      HasHeader(h', MergeNext(bs, i), k)
  {
    var was := if k <= i then k else k + 1;
    assert HasHeader(h, bs, i) && HasHeader(h, bs, i + 1) && HasHeader(h, bs, was);
    assert Placed(bs, at, i) && Placed(bs, at, i + 1) && Placed(bs, at, was);
    assert i + 2 < |bs| ==> Placed(bs, at, i + 2);
    MergedHeader(h, bs, at, i, k);
  }

  ghost predicate Placed(bs: seq<Block>, at: map<nat, nat>, i: nat)
    requires i < |bs|
  {
    0 < bs[i].address && bs[i].address in at && at[bs[i].address] == i
  }

  lemma MergedHeader(h: map<nat, Header>, bs: seq<Block>, at: map<nat, nat>, i: nat, k: nat)
    requires i + 1 < |bs| && bs[i + 1].free && k < |MergeNext(bs, i)|
    requires
      var was := if k <= i then k else k + 1;
      && was < |bs| && HasHeader(h, bs, i) && HasHeader(h, bs, i + 1) && HasHeader(h, bs, was)
      && Placed(bs, at, i) && Placed(bs, at, i + 1) && Placed(bs, at, was)
    requires i + 2 < |bs| ==> Placed(bs, at, i + 2)
    requires h[bs[i + 1].address].next != 0 ==> h[bs[i + 1].address].next in h
    ensures HasHeader(Unlink(h, bs[i].address, bs[i + 1].address), MergeNext(bs, i), k)
  {
    MergedAt(bs, i, k);
    Unlinked(h, bs[i].address, bs[i + 1].address, bs[if k <= i then k else k + 1].address);
  }

  /** Which headers the merge writes, when the three blocks it touches are different. */
  lemma Unlinked(h: map<nat, Header>, block: nat, next: nat, a: nat)
    requires block in h && next in h && a in h && block != next && (h[next].next != 0 ==> h[next].next in h)
    requires h[next].next != block && h[next].next != next && a != next && a != 0
    ensures
      var h', after := Unlink(h, block, next), h[next].next;
      a in h' && h'[a] ==
        if a == block then h[a].(size := h[a].size + HEADER + h[next].size, next := after)
        else if a == after then h[a].(previous := block)
        else h[a]
  {}

  /** Where the blocks of a merged list come from. */
  lemma MergedAt(bs: seq<Block>, i: nat, k: nat)
    requires i + 1 < |bs| && bs[i + 1].free && k < |MergeNext(bs, i)|
    ensures
      var cs, was := MergeNext(bs, i), if k <= i then k else k + 1;
      && |cs| == |bs| - 1 && cs[k].address == bs[was].address && cs[k].free == bs[was].free
      && cs[k].size == (if k == i then bs[i].size + HEADER + bs[i + 1].size else bs[was].size)
      && HeaderAt(cs, k).previous == (if k == 0 then 0 else bs[if k - 1 <= i then k - 1 else k].address)
      && HeaderAt(cs, k).next == (if k + 1 == |cs| then 0 else bs[if k + 1 <= i then k + 1 else k + 2].address)
  {}

  lemma MergedStrays(h: map<nat, Header>, bs: seq<Block>, i: nat)
    requires NoStrays(h, bs) && i + 1 < |bs| && bs[i + 1].free
    requires bs[i].address in h && bs[i + 1].address in h && h[bs[i].address].magic == MAGIC
    requires var after := h[bs[i + 1].address].next; after != 0 ==> after in h && h[after].magic == MAGIC
    ensures NoStrays(Unlink(h, bs[i].address, bs[i + 1].address), MergeNext(bs, i))
  {
    var h' := Unlink(h, bs[i].address, bs[i + 1].address);
    var cs := MergeNext(bs, i);
    forall a | a in h' && h'[a].magic == MAGIC ensures Starts(cs, a) {
      assert a in h && h[a].magic == MAGIC;
      var k :| 0 <= k < |bs| && bs[k].address == a;
      assert cs[if k <= i then k else k - 1].address == a;
    }
  }

  lemma MergeLinks(h: map<nat, Header>, bs: seq<Block>, at: map<nat, nat>, i: nat)
    requires Represents(h, bs) && Indexed(bs, at) && i + 1 < |bs| && bs[i + 1].free
    ensures bs[i].address in h && bs[i + 1].address in h
    ensures var after := h[bs[i + 1].address].next; after != 0 ==> after in h
    ensures Represents(Unlink(h, bs[i].address, bs[i + 1].address), MergeNext(bs, i))
  {
    assert HasHeader(h, bs, i) && HasHeader(h, bs, i + 1);
    assert i + 2 < |bs| ==> HasHeader(h, bs, i + 2);
    MergedStrays(h, bs, i);
    var h' := Unlink(h, bs[i].address, bs[i + 1].address);
    var cs := MergeNext(bs, i);
    forall k | 0 <= k < |cs| ensures HasHeader(h', cs, k) {
      MergedLink(h, bs, at, i, k);
    }
  }

  /** The headers after `split` has been carved out of `block`, which is then marked used. */
  function Carve(h: map<nat, Header>, block: nat, size: nat, split: nat): map<nat, Header>
    requires block in h && (h[block].next != 0 ==> h[block].next in h)
    requires size + HEADER <= h[block].size
  {
    var after := h[block].next;
    var h1 := h[split := Header(h[block].size - size - HEADER, block, after, MAGIC, true)];
    var h2 := if after == 0 then h1 else h1[after := h1[after].(previous := split)];
    h2[block := h2[block].(next := split, size := size, free := false)]
  }

  lemma CarvedLink(h: map<nat, Header>, bs: seq<Block>, at: map<nat, nat>, i: nat, size: nat, k: nat)
    requires Linked(h, bs) && Indexed(bs, at)
    requires i < |bs| && bs[i].size >= size + HEADER + 16
    requires forall j :: 0 <= j < |bs| ==> bs[j].address != bs[i].address + HEADER + size
    requires bs[i].address in h && bs[i].size == h[bs[i].address].size
    requires h[bs[i].address].next != 0 ==> h[bs[i].address].next in h
    requires k < |Allocate(bs, i, size)|
    ensures var h' := Carve(h, bs[i].address, size, bs[i].address + HEADER + size);
      HasHeader(h', Allocate(bs, i, size), k)
  {
    var cs := Allocate(bs, i, size);
    assert HasHeader(h, bs, i);
    if k != i + 1 {
      var was := if k <= i then k else k - 1;
      assert cs[k].address == bs[was].address;
      assert HasHeader(h, bs, was);
    }
  }

  lemma CarveLinks(h: map<nat, Header>, bs: seq<Block>, at: map<nat, nat>, i: nat, size: nat)
    requires Represents(h, bs) && Indexed(bs, at)
    requires i < |bs| && bs[i].size >= size + HEADER + 16
    requires forall j :: 0 <= j < |bs| ==> bs[j].address != bs[i].address + HEADER + size
    ensures bs[i].address in h && h[bs[i].address] == HeaderAt(bs, i)
    ensures h[bs[i].address].next != 0 ==> h[bs[i].address].next in h
    ensures Represents(Carve(h, bs[i].address, size, bs[i].address + HEADER + size), Allocate(bs, i, size))
  {
    assert HasHeader(h, bs, i);
    assert i + 1 < |bs| ==> HasHeader(h, bs, i + 1);
    var split := bs[i].address + HEADER + size;
    var h' := Carve(h, bs[i].address, size, split);
    var cs := Allocate(bs, i, size);
    forall k | 0 <= k < |cs| ensures HasHeader(h', cs, k) {
      CarvedLink(h, bs, at, i, size, k);
    }
    forall a | a in h' && h'[a].magic == MAGIC ensures Starts(cs, a) {
      if a == split {
        assert cs[i + 1].address == a;
      } else {
        assert a in h && h[a].magic == MAGIC;
        var k :| 0 <= k < |bs| && bs[k].address == a;
        assert cs[if k <= i then k else k + 1].address == a;
      }
    }
  }

  lemma MarkLinks(h: map<nat, Header>, bs: seq<Block>, at: map<nat, nat>, i: nat, free: bool)
    requires Represents(h, bs) && Indexed(bs, at) && i < |bs|
    ensures bs[i].address in h && h[bs[i].address] == HeaderAt(bs, i)
    ensures var a := bs[i].address; var cs := bs[i := bs[i].(free := free)];
      Represents(h[a := h[a].(free := free)], cs) && Indexed(cs, at)
  {
    assert HasHeader(h, bs, i);
    var a := bs[i].address;
    var cs := bs[i := bs[i].(free := free)];
    var h' := h[a := h[a].(free := free)];
    forall k | 0 <= k < |cs| ensures HasHeader(h', cs, k) {
      assert HasHeader(h, bs, k);
    }
    forall a | a in h' && h'[a].magic == MAGIC ensures Starts(cs, a) {
      var k :| 0 <= k < |bs| && bs[k].address == a;
      assert cs[k].address == a;
    }
  }

  lemma MergeIndexed(bs: seq<Block>, at: map<nat, nat>, i: nat) returns (at': map<nat, nat>)
    requires Indexed(bs, at) && i < |bs|
    ensures Indexed(MergeNext(bs, i), at')
  {
    var cs := MergeNext(bs, i);
    if cs == bs { return at; }
    at' := map a | a in at :: if at[a] <= i then at[a] else if at[a] > 0 then at[a] - 1 else 0;
    forall k | 0 <= k < |cs| ensures 0 < cs[k].address && cs[k].address in at' && at'[cs[k].address] == k {
      assert cs[k].address == bs[if k <= i then k else k + 1].address;
    }
  }

  /** A split point inside a block is nobody's header address. */
  lemma SplitFresh(bs: seq<Block>, base: nat, limit: nat, i: nat, size: nat)
    requires WellFormed(bs, base, limit) && i < |bs| && size < bs[i].size
    ensures forall j :: 0 <= j < |bs| ==> bs[j].address != bs[i].address + HEADER + size
  {
    ChainOrder(bs, base, false, limit);
  }

  /** The 64-bit sum in the split test does not wrap for a block that fits. */
  lemma NoWrap(bs: seq<Block>, base: nat, limit: nat, i: nat, size: nat)
    requires WellFormed(bs, base, limit) && i < |bs| && size <= bs[i].size
    requires 4096 <= base && limit <= U64
    ensures (size + HEADER + 16) % U64 == size + HEADER + 16
  {
    ChainOrder(bs, base, false, limit);
  }

  /** Every check of Kfree passes for a live pointer. */
  lemma LivePointerAccepted(h: map<nat, Header>, bs: seq<Block>, base: nat, limit: nat, pointer: nat)
    requires WellFormed(bs, base, limit) && Linked(h, bs) && Aligned(base) && pointer in Pointers(bs)
    ensures base + HEADER <= pointer < limit && pointer % 16 == 0
    ensures pointer - HEADER in h && h[pointer - HEADER].magic == MAGIC && !h[pointer - HEADER].free
  {
    PointerIndex(bs, pointer);
    var i := LiveIndex(bs, pointer, 0);
    assert HasHeader(h, bs, i);
    ChainLinks(bs, base, false, limit, i);
    ChainOrder(bs, base, false, limit);
  }

  lemma PointerIndex(bs: seq<Block>, pointer: nat)
    ensures pointer in Pointers(bs) <==> LiveIndex(bs, pointer, 0) < |bs|
    ensures pointer !in Pointers(bs) ==> Step(bs, Free(pointer)) == bs
  {}

  /** A used header with the magic number is the header of a live block, the one its payload address names. */
  lemma OwnIndex(h: map<nat, Header>, bs: seq<Block>, at: map<nat, nat>, a: nat) returns (i: nat)
    requires Represents(h, bs) && Indexed(bs, at) && a in h && h[a].magic == MAGIC && !h[a].free
    ensures i < |bs| && bs[i].address == a && !bs[i].free
    ensures i == LiveIndex(bs, a + HEADER, 0) && a + HEADER in Pointers(bs)
  {
    var k :| 0 <= k < |bs| && bs[k].address == a;
    assert HasHeader(h, bs, k);
    i := k;
    assert bs[i] in Live(bs);
    var l := LiveIndex(bs, a + HEADER, 0);
    assert l < |bs| && bs[l].address == a;
  }

  /** What freeing the payload of a used header does to the list. */
  lemma Recyclable(h: map<nat, Header>, bs: seq<Block>, base: nat, limit: nat, pointer: nat)
    returns (i: nat, at: map<nat, nat>, goal: seq<Block>)
    requires Represents(h, bs) && WellFormed(bs, base, limit) && base > 0 && pointer >= HEADER
    requires pointer - HEADER in h && h[pointer - HEADER].magic == MAGIC && !h[pointer - HEADER].free
    ensures Indexed(bs, at) && i < |bs| && bs[i].address == pointer - HEADER
    ensures goal == Step(bs, Free(pointer)) && goal == Release(bs, i) && WellFormed(goal, base, limit)
    ensures Pointers(goal) == Pointers(bs) - {pointer}
  {
    goal := Step(bs, Free(pointer));
    at := ChainIndexed(bs, base, false, limit);
    i := OwnIndex(h, bs, at, pointer - HEADER);
    FreeRemovesPointer(bs, base, limit, pointer);
    StepKeeps(bs, base, limit, Free(pointer));
  }

  // ------------------------------------------------------------- validation

  /** Some list of blocks that tiles the heap and agrees with the headers. */
  ghost predicate Sound(h: map<nat, Header>, bs: seq<Block>, base: nat, limit: nat) {
    WellFormed(bs, base, limit) && Linked(h, bs)
  }

  ghost predicate HasSound(h: map<nat, Header>, base: nat, limit: nat) {
    exists bs: seq<Block> :: Sound(h, bs, base, limit)
  }

  ghost function Pending(bs: seq<Block>, i: nat, tail: nat): Header
    requires i < |bs|
  {
    if i + 1 < |bs| then HeaderAt(bs, i) else HeaderAt(bs, i).(next := tail)
  }

  ghost predicate HasPending(h: map<nat, Header>, bs: seq<Block>, i: nat, tail: nat)
    requires i < |bs|
  {
    bs[i].address in h && h[bs[i].address] == Pending(bs, i, tail)
  }

  /** The blocks walked so far: a linked chain whose last header points on to `tail`. */
  ghost predicate Walked(h: map<nat, Header>, bs: seq<Block>, base: nat, cursor: nat, tail: nat) {
    && Chain(bs, base, false, cursor)
    && forall i :: 0 <= i < |bs| ==> HasPending(h, bs, i, tail)
  }

  lemma WalkOn(h: map<nat, Header>, bs: seq<Block>, base: nat, cursor: nat, b: Block, tail: nat)
    requires Walked(h, bs, base, cursor, cursor) && b.address == cursor && b.address in h
    requires b.size > 0 && Aligned(b.size) && !(EndsFree(bs, false) && b.free)
    requires h[b.address] == Header(b.size, if bs == [] then 0 else bs[|bs| - 1].address, tail, MAGIC, b.free)
    ensures Walked(h, bs + [b], base, b.End(), tail)
  {
    ChainEnd(bs, base, false, cursor);
    SingleChain(b, EndsFree(bs, false));
    ChainConcat(bs, [b], base, false, b.End());
    var cs := bs + [b];
    forall i | 0 <= i < |cs| ensures HasPending(h, cs, i, tail) {
      if i < |bs| { assert HasPending(h, bs, i, cursor); }
    }
  }

  lemma {:induction false} ChainLength(bs: seq<Block>, from: nat, afterFree: bool, limit: nat)
    requires Chain(bs, from, afterFree, limit)
    ensures from + 48 * |bs| <= limit
  {
    if bs != [] { ChainLength(bs[1..], bs[0].End(), bs[0].free, limit); }
  }

  /** What a sound list says about the block that follows a walked prefix of it. */
  lemma SoundNext(h: map<nat, Header>, bs: seq<Block>, base: nat, limit: nat, k: nat)
    requires Sound(h, bs, base, limit) && k < |bs|
    ensures bs[k].address == EndOf(bs[..k], base)
    ensures bs[k].size > 0 && Aligned(bs[k].size) && bs[k].End() <= limit && base <= bs[k].address
    ensures !(EndsFree(bs[..k], false) && bs[k].free)
    ensures bs[k].address in h && h[bs[k].address] == HeaderAt(bs, k)
    ensures k + 1 <= (limit - base) / 32
  {
    ChainLinks(bs, base, false, limit, k);
    ChainOrder(bs, base, false, limit);
    ChainLength(bs, base, false, limit);
    assert HasHeader(h, bs, k);
  }

  /** A finished walk is a sound list, and the only possible one, exactly when it reaches the limit. */
  lemma WalkDone(h: map<nat, Header>, bs: seq<Block>, base: nat, cursor: nat, limit: nat)
    requires Walked(h, bs, base, cursor, 0) && bs != []
    ensures Sound(h, bs, base, limit) <==> cursor == limit
  {
    ChainEnd(bs, base, false, cursor);
    if Chain(bs, base, false, limit) { ChainEnd(bs, base, false, limit); }
    forall i | 0 <= i < |bs| ensures HasHeader(h, bs, i) {
      assert HasPending(h, bs, i, 0);
    }
  }

  /** Where any sound list must continue after the walked prefix. */
  ghost predicate Forced(h: map<nat, Header>, base: nat, limit: nat, walked: seq<Block>, tail: nat) {
    forall bs: seq<Block> :: Sound(h, bs, base, limit) ==>
      && walked <= bs
      && tail == if |walked| < |bs| then bs[|walked|].address else 0
  }

  lemma ForcedOn(h: map<nat, Header>, base: nat, limit: nat, walked: seq<Block>, b: Block)
    requires Forced(h, base, limit, walked, b.address) && b.address in h && b.address > 0
    requires b.size == h[b.address].size && b.free == h[b.address].free
    ensures Forced(h, base, limit, walked + [b], h[b.address].next)
  {
    forall bs: seq<Block> | Sound(h, bs, base, limit)
      ensures walked + [b] <= bs
      ensures h[b.address].next == if |walked| + 1 < |bs| then bs[|walked| + 1].address else 0
    {
      SoundNext(h, bs, base, limit, |walked|);
    }
  }

  lemma FirstForced(h: map<nat, Header>, base: nat, limit: nat)
    ensures Forced(h, base, limit, [], base)
  {}

  /** A header that fails one of the checks belongs to no sound list. */
  lemma Refuse(h: map<nat, Header>, base: nat, limit: nat, walked: seq<Block>, block: nat, previous: nat)
    requires Forced(h, base, limit, walked, block) && block > 0 && base > 0
    requires previous == if walked == [] then 0 else walked[|walked| - 1].address
    requires previous != 0 ==> previous in h && h[previous].free == EndsFree(walked, false)
    requires
      || |walked| + 1 > (limit - base) / 32 || block < base || block + HEADER > limit
      || block != EndOf(walked, base) || block !in h
      || h[block].magic != MAGIC || h[block].previous != previous
      || h[block].size == 0 || h[block].size % 16 != 0 || block + HEADER + h[block].size > limit
      || (previous != 0 && h[previous].free && h[block].free)
    ensures !HasSound(h, base, limit)
  {
    forall bs: seq<Block> | Sound(h, bs, base, limit) ensures false {
      assert bs[..|walked|] == walked;
      SoundNext(h, bs, base, limit, |walked|);
    }
  }

  lemma RefuseNext(h: map<nat, Header>, base: nat, limit: nat, walked: seq<Block>, next: nat)
    requires Forced(h, base, limit, walked, next) && next != 0 && next != EndOf(walked, base)
    ensures !HasSound(h, base, limit)
  {
    forall bs: seq<Block> | Sound(h, bs, base, limit) ensures false {
      assert bs[..|walked|] == walked;
      SoundNext(h, bs, base, limit, |walked|);
    }
  }

  /** Exactly one live block is new; its payload is at `pointer` and holds `requested` bytes. */
  ghost predicate Gains(before: set<Block>, after: set<Block>, pointer: nat, requested: nat) {
    exists b: Block :: b in after && b !in before && after == before + {b}
      && b.Payload() == pointer && requested <= b.size
  }

  lemma GrantFacts(bs: seq<Block>, base: nat, limit: nat, i: nat, size: nat)
    requires WellFormed(bs, base, limit) && Aligned(base)
    requires i < |bs| && Fits(bs[i], size) && size > 0 && Aligned(size)
    ensures WellFormed(Allocate(bs, i, size), base, limit)
    ensures Aligned(bs[i].Payload())
    ensures Gains(Live(bs), Live(Allocate(bs, i, size)), bs[i].Payload(), size)
  {
    AllocateKeeps(bs, base, limit, i, size);
    AllocateLive(bs, base, limit, i, size);
    ChainLinks(bs, base, false, limit, i);
    assert Taken(bs[i], size)[0] in Live(Allocate(bs, i, size));
  }

  lemma RunsAreShort(pmm: Pmm.PageAllocator, pages: nat)
    requires pmm.Valid() && pages > 0
    ensures Pmm.HasRun(pmm.Free(), pages) ==> pages <= pmm.pageCount
  {
    if start: nat :| Pmm.RunAt(pmm.Free(), start, pages) {
      assert start + pages - 1 in pmm.Free();
    }
  }

  class KernelHeap {
    var base: nat
    var size: nat
    var first: nat
    var headers: map<nat, Header>
    ghost var blocks: seq<Block>

    ghost predicate Valid()
      reads this
    {
      if first == 0 then blocks == []
      else
        && 4096 <= base == first && Aligned(base) && HEADER <= size && base + size <= U64
        && WellFormed(blocks, base, base + size)
        && Represents(headers, blocks)
    }

    /** A heap before heap_init has run. */
    constructor ()
      ensures Valid() && blocks == [] && first == 0 && headers == map[]
    {
      base, size, first, headers, blocks := 0, 0, 0, map[], [];
    }

    /** Takes the pages from the page allocator and lays one free block over them. */
    method Init(pmm: Pmm.PageAllocator, pages: nat) returns (ok: bool)
      requires first == 0 && headers == map[] && pmm.Valid() && 0 !in pmm.managed && pages < U64
      modifies this, pmm, pmm.usable, pmm.used
      ensures pmm.Valid() && pmm.managed == old(pmm.managed)
      ensures ok <==> pages != 0 && Pmm.HasRun(old(pmm.Free()), pages)
      ensures !ok ==> unchanged(this) && pmm.Free() == old(pmm.Free())
      ensures ok ==> Valid() && first != 0 && size == pages * 4096 && blocks == Fresh(base, base + size)
      ensures ok ==> base % 4096 == 0 && LowestRun(old(pmm.Free()), base / 4096, pages)
      ensures ok ==> pmm.Free() == old(pmm.Free()) - Span(base / 4096, pages)
    {
      if pages == 0 { return false; }
      RunsAreShort(pmm, pages);
      if pages > (U64 - 1) / 4096 { return false; }
      var address := Grab(pmm, pages);
      if address == 0 { return false; }
      Lay(address, pages);
      return true;
    }

    /** The first free run of that length. */
    static ghost predicate LowestRun(free: set<nat>, first: nat, pages: nat) {
      Pmm.RunAt(free, first, pages) && forall s: nat :: s < first ==> !Pmm.RunAt(free, s, pages)
    }

    static method Grab(pmm: Pmm.PageAllocator, pages: nat) returns (address: nat)
      requires pmm.Valid() && 0 !in pmm.managed && pages > 0
      modifies pmm, pmm.usable, pmm.used
      ensures pmm.Valid() && pmm.managed == old(pmm.managed)
      ensures address == 0 <==> !Pmm.HasRun(old(pmm.Free()), pages)
      ensures address == 0 ==> pmm.Free() == old(pmm.Free())
      ensures address != 0 ==> address % 4096 == 0 && address + pages * 4096 <= U64
      ensures address != 0 ==> LowestRun(old(pmm.Free()), address / 4096, pages)
      ensures address != 0 ==> pmm.Free() == old(pmm.Free()) - Span(address / 4096, pages)
    {
      address := pmm.AllocPages(pages);
      if address != 0 { assert address / 4096 + pages - 1 in old(pmm.Free()); }
    }

    method Lay(address: nat, pages: nat)
      requires headers == map[] && address % 4096 == 0 && 0 < address && 0 < pages && address + pages * 4096 <= U64
      modifies this
      ensures Valid() && first != 0 && base == address && size == pages * 4096
      ensures blocks == Fresh(base, base + size)
    {
      base, size := address, pages * 4096;
      first := address;
      headers := map[address := Header(size - HEADER, 0, 0, MAGIC, true)];
      blocks := Fresh(base, base + size);
      FreshHeap(address, pages * 4096);
    }

    /** Merges `block` with its successor if that one is free. */
    method MergeWithNext(block: nat, ghost bs: seq<Block>, ghost at: map<nat, nat>, ghost i: nat)
      requires Represents(headers, bs) && Indexed(bs, at)
      requires i < |bs| && bs[i].address == block
      modifies this`headers
      ensures Represents(headers, MergeNext(bs, i))
    {
      assert HasHeader(headers, bs, i);
      var next := headers[block].next;
      if next == 0 { return; }
      assert HasHeader(headers, bs, i + 1);
      if !headers[next].free || headers[next].magic != MAGIC { return; }
      MergeLinks(headers, bs, at, i);
      ghost var goal := Unlink(headers, block, next);
      headers := headers[block := headers[block].(size := headers[block].size + HEADER + headers[next].size)];
      headers := headers[block := headers[block].(next := headers[next].next)];
      var after := headers[block].next;
      if after != 0 {
        headers := headers[after := headers[after].(previous := block)];
      }
      headers := headers[next := headers[next].(magic := 0)];
      assert headers == goal;
    }

    predicate BlockInHeap(block: nat)
      reads this
    {
      base != 0 && base <= block && block <= base + size - HEADER
    }

    /**
    First-fit allocation. 0 is returned exactly when the request is empty or too large, or no
    free block can hold it; otherwise the lowest fitting block is handed out, aligned and
    disjoint from everything live.
    */
    method Kmalloc(requested: nat) returns (pointer: nat)
      requires Valid() && requested < U64
      modifies this`headers, this`blocks
      ensures Valid()
      ensures blocks == Step(old(blocks), Malloc(requested))
      ensures pointer == 0 <==> AlignSize(requested) == 0 || forall b <- old(blocks) :: !Fits(b, AlignSize(requested))
      ensures pointer == 0 ==> headers == old(headers)
      ensures pointer != 0 ==> Aligned(pointer) && Gains(Live(old(blocks)), Live(blocks), pointer, requested)
    {
      var wanted := AlignSize(requested);
      if wanted == 0 || first == 0 { return 0; }
      var block := FindFit(wanted);
      if block == 0 { return 0; }
      GrantBlock(block, wanted, FirstFit(blocks, wanted, 0));
      return block + HEADER;
    }

    /** Block `i` is handed out. */
    method GrantBlock(block: nat, wanted: nat, ghost i: nat)
      requires Valid() && first != 0 && wanted > 0 && Aligned(wanted) && wanted < U64
      requires i < |blocks| && blocks[i].address == block && Fits(blocks[i], wanted)
      modifies this`headers, this`blocks
      ensures Valid() && blocks == Allocate(old(blocks), i, wanted) && Aligned(block + HEADER)
      ensures Gains(Live(old(blocks)), Live(blocks), block + HEADER, wanted)
    {
      GrantFacts(blocks, base, base + size, i, wanted);
      Hand(block, wanted, i);
      blocks := Allocate(blocks, i, wanted);
    }

    /** The search loop of kmalloc: the lowest block that fits. */
    method FindFit(wanted: nat) returns (block: nat)
      requires Valid() && first != 0
      ensures var i := FirstFit(blocks, wanted, 0);
        if i < |blocks| then 0 < block == blocks[i].address else block == 0
    {
      block := first;
      ghost var i := 0;
      ghost var at := ChainIndexed(blocks, base, false, base + size);
      while block != 0
        invariant i <= |blocks| && block == if i < |blocks| then blocks[i].address else 0
        invariant forall j :: 0 <= j < i ==> !Fits(blocks[j], wanted)
        decreases |blocks| - i
      {
        assert HasHeader(headers, blocks, i);
        if !headers[block].free || headers[block].magic != MAGIC || headers[block].size < wanted {
          block := headers[block].next;
          i := i + 1;
        } else {
          return;
        }
      }
    }

    /** The rest of a block becomes a free block of its own, and the block is marked used. */
    method Cut(block: nat, wanted: nat)
      requires block in headers && (headers[block].next != 0 ==> headers[block].next in headers)
      requires wanted + HEADER <= headers[block].size && block + HEADER + wanted !in {block, headers[block].next}
      modifies this`headers
      ensures headers == Carve(old(headers), block, wanted, block + HEADER + wanted)
    {
      var split := block + HEADER + wanted;
      var rest := headers[block].size - wanted - HEADER;
      headers := headers[split := Header(rest, block, headers[block].next, MAGIC, true)];
      if headers[split].next != 0 {
        headers := headers[headers[split].next := headers[headers[split].next].(previous := split)];
      }
      headers := headers[block := headers[block].(next := split)];
      headers := headers[block := headers[block].(size := wanted)];
      headers := headers[block := headers[block].(free := false)];
    }

    /** The fitting block found by Kmalloc is split if worthwhile and marked used. */
    method Hand(block: nat, wanted: nat, ghost i: nat)
      requires Represents(headers, blocks)
      requires WellFormed(blocks, base, base + size) && 4096 <= base && base + size <= U64
      requires i < |blocks| && blocks[i].address == block && Fits(blocks[i], wanted)
      modifies this`headers
      ensures Represents(headers, Allocate(blocks, i, wanted))
    {
      ghost var at := ChainIndexed(blocks, base, false, base + size);
      assert HasHeader(headers, blocks, i);
      NoWrap(blocks, base, base + size, i, wanted);
      if headers[block].size >= (wanted + HEADER + 16) % U64 {
        SplitFresh(blocks, base, base + size, i, wanted);
        CarveLinks(headers, blocks, at, i, wanted);
        Cut(block, wanted);
      } else {
        MarkLinks(headers, blocks, at, i, false);
        headers := headers[block := headers[block].(free := false)];
        assert blocks[i := blocks[i].(free := false)] == Allocate(blocks, i, wanted);
      }
    }

    /**
    Succeeds exactly when `pointer` is the payload of a live block, so a double free, a null or
    an inner pointer is refused; the block is then freed and joined with its free neighbours.
    */
    method Kfree(pointer: nat) returns (ok: bool)
      requires Valid() && pointer < U64
      modifies this`headers, this`blocks
      ensures Valid()
      ensures blocks == Step(old(blocks), Free(pointer))
      ensures ok <==> pointer in Pointers(old(blocks))
      ensures ok ==> Pointers(blocks) == Pointers(old(blocks)) - {pointer}
      ensures !ok ==> headers == old(headers)
    {
      ok := Accepts(pointer);
      if ok { Recycle(pointer); } else { PointerIndex(blocks, pointer); }
    }

    /** The checks of Kfree: they pass exactly for live payloads. */
    method Accepts(pointer: nat) returns (ok: bool)
      requires Valid() && pointer < U64
      ensures ok <==> pointer in Pointers(blocks)
      ensures ok ==> first != 0 && pointer >= HEADER && pointer - HEADER in headers
      ensures ok ==> headers[pointer - HEADER].magic == MAGIC && !headers[pointer - HEADER].free
    {
      PointerIndex(blocks, pointer);
      if first != 0 && pointer in Pointers(blocks) {
        LivePointerAccepted(headers, blocks, base, base + size, pointer);
      }
      if pointer == 0 || first == 0 || pointer < base + HEADER || pointer >= base + size || pointer % 16 != 0 {
        return false;
      }
      var block := pointer - HEADER;
      if !BlockInHeap(block) || block !in headers || headers[block].magic != MAGIC || headers[block].free {
        return false;
      }
      HeaderIsLive(headers, blocks, block);
      return true;
    }

    /** The accepted half of Kfree. */
    method Recycle(pointer: nat)
      requires Valid() && first != 0 && pointer >= HEADER
      requires pointer - HEADER in headers
      requires headers[pointer - HEADER].magic == MAGIC && !headers[pointer - HEADER].free
      modifies this`headers, this`blocks
      ensures WellFormed(blocks, base, base + size) && Represents(headers, blocks)
      ensures blocks == Step(old(blocks), Free(pointer))
      ensures Pointers(blocks) == Pointers(old(blocks)) - {pointer}
    {
      ghost var i, at, goal := Recyclable(headers, blocks, base, base + size, pointer);
      FreeHeader(pointer - HEADER, i, at);
      blocks := goal;
    }

    /** Marks the block free and merges it with a free successor and a free predecessor. */
    method FreeHeader(block: nat, ghost i: nat, ghost at: map<nat, nat>)
      requires Represents(headers, blocks) && Indexed(blocks, at)
      requires i < |blocks| && blocks[i].address == block
      modifies this`headers
      ensures Represents(headers, Release(blocks, i))
    {
      MarkLinks(headers, blocks, at, i, true);
      ghost var freed := blocks[i := blocks[i].(free := true)];
      headers := headers[block := headers[block].(free := true)];
      MergeWithNext(block, freed, at, i);
      ghost var merged := MergeNext(freed, i);
      ghost var at' := MergeIndexed(freed, at, i);
      assert HasHeader(headers, merged, i);
      assert i > 0 ==> merged[i - 1] == blocks[i - 1];
      if headers[block].previous != 0 {
        assert HasHeader(headers, merged, i - 1);
        if headers[headers[block].previous].free {
          MergeWithNext(headers[block].previous, merged, at', i - 1);
        }
      }
    }

    function TotalBytes(): nat
      reads this
    {
      if size > HEADER then size - HEADER else 0
    }

    method CountFreeBytes() returns (total: nat)
      requires Valid()
      ensures total == FreeBytes(blocks)
    {
      total := 0;
      var block := first;
      ghost var i := 0;
      ghost var at := map[];
      if first != 0 { at := ChainIndexed(blocks, base, false, base + size); }
      while block != 0
        invariant i <= |blocks| && block == if i < |blocks| then blocks[i].address else 0
        invariant total == FreeBytes(blocks[..i])
        decreases |blocks| - i
      {
        assert HasHeader(headers, blocks, i);
        assert blocks[..i + 1][..i] == blocks[..i];
        if headers[block].magic == MAGIC && headers[block].free { total := total + headers[block].size; }
        block := headers[block].next;
        i := i + 1;
      }
      assert blocks[..i] == blocks;
    }

    method CountUsedBytes() returns (total: nat)
      requires Valid()
      ensures total == UsedBytes(blocks)
      ensures first != 0 ==> FreeBytes(blocks) + total + 32 * (|blocks| - 1) == TotalBytes()
    {
      total := 0;
      var block := first;
      ghost var i := 0;
      ghost var at := map[];
      if first != 0 { at := ChainIndexed(blocks, base, false, base + size); }
      while block != 0
        invariant i <= |blocks| && block == if i < |blocks| then blocks[i].address else 0
        invariant total == UsedBytes(blocks[..i])
        decreases |blocks| - i
      {
        assert HasHeader(headers, blocks, i);
        assert blocks[..i + 1][..i] == blocks[..i];
        if headers[block].magic == MAGIC && !headers[block].free { total := total + headers[block].size; }
        block := headers[block].next;
        i := i + 1;
      }
      assert blocks[..i] == blocks;
      if first != 0 { Conservation(blocks, base, base + size); }
    }

    /**
    heap_validate on arbitrary header memory: it answers yes exactly when some coalesced list of
    aligned blocks tiles the heap and every header agrees with it in both link directions.
    */
    method Validate() returns (ok: bool)
      requires first != 0 ==> 4096 <= base && HEADER <= size && base + size <= U64
      ensures ok <==> first != 0 && first == base && HasSound(headers, base, base + size)
      ensures Valid() && first != 0 ==> ok
    {
      if first == 0 || first != base { return false; }
      ghost var limit := base + size;
      var previous: nat, cursor: nat, count: nat, block: nat := 0, base, 0, first;
      var maximum := size / 32;
      ghost var walked: seq<Block> := [];
      FirstForced(headers, base, limit);
      assert Valid() ==> Sound(headers, blocks, base, limit);
      while block != 0
        invariant Walked(headers, walked, base, cursor, block) && Forced(headers, base, limit, walked, block)
        invariant |walked| == count <= maximum && base <= cursor <= limit
        invariant walked == [] ==> previous == 0 && cursor == block == base
        invariant walked != [] ==> 0 < previous == walked[count - 1].address && previous in headers
        invariant walked != [] ==> headers[previous].free == walked[count - 1].free
        invariant block != 0 ==> block == cursor
        decreases maximum - count
      {
        count := count + 1;
        if count > maximum || !BlockInHeap(block) || block != cursor || block !in headers
          || headers[block].magic != MAGIC || headers[block].previous != previous
          || headers[block].size == 0 || headers[block].size % 16 != 0
          || headers[block].size > base + size - block - HEADER
          || (previous != 0 && headers[previous].free && headers[block].free)
        {
          Refuse(headers, base, limit, walked, block, previous);
          return false;
        }
        ghost var b := Block(block, headers[block].size, headers[block].free);
        WalkOn(headers, walked, base, cursor, b, headers[block].next);
        ForcedOn(headers, base, limit, walked, b);
        walked := walked + [b];
        cursor := block + HEADER + headers[block].size;
        if headers[block].next != 0 && headers[block].next != cursor {
          RefuseNext(headers, base, limit, walked, headers[block].next);
          return false;
        }
        previous := block;
        block := headers[block].next;
      }
      WalkDone(headers, walked, base, cursor, limit);
      forall bs: seq<Block> | Sound(headers, bs, base, limit) ensures bs == walked {
        if |walked| < |bs| { SoundNext(headers, bs, base, limit, |walked|); }
      }
      return cursor == base + size;
    }
  }
}
