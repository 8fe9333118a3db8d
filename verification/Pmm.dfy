/**
The physical page allocator: two bitmaps (which pages are managed, which are in use)
and two counters. The abstract state is the pair of page sets `Managed` and `Free`.
*/
module Pmm {
  import opened Common
  import opened Counting

  const PAGE: nat := 4096

  // ------------------------------------------------------------------- bitmaps

  function Mask(k: nat): bv8
    requires k < 8
  {
    if k == 0 then 1 else if k == 1 then 2 else if k == 2 then 4 else if k == 3 then 8
    else if k == 4 then 16 else if k == 5 then 32 else if k == 6 then 64 else 128
  }

  predicate HasBit(b: bv8, k: nat)
    requires k < 8
  {
    b & Mask(k) != 0
  }

  lemma SetBit(b: bv8, k: nat, j: nat)
    requires k < 8 && j < 8
    ensures HasBit(b | Mask(k), j) <==> j == k || HasBit(b, j)
  {}

  lemma ClearBit(b: bv8, k: nat, j: nat)
    requires k < 8 && j < 8
    ensures HasBit(b & !Mask(k), j) <==> j != k && HasBit(b, j)
  {}

  predicate Bit(bytes: seq<bv8>, page: nat)
    requires page < 8 * |bytes|
  {
    HasBit(bytes[page / 8], page % 8)
  }

  /** The first `n` bits of the bitmap are the pages of `ones`. */
  ghost predicate Agree(bytes: seq<bv8>, ones: set<nat>, n: nat)
    requires n <= 8 * |bytes|
  {
    n == 0 || (Agree(bytes, ones, n - 1) && (n - 1 in ones <==> Bit(bytes, n - 1)))
  }

  lemma {:induction false} AgreeAt(bytes: seq<bv8>, ones: set<nat>, n: nat, page: nat)
    requires page < n <= 8 * |bytes| && Agree(bytes, ones, n)
    ensures page in ones <==> Bit(bytes, page)
  {
    if page < n - 1 { AgreeAt(bytes, ones, n - 1, page); }
  }

  lemma {:induction false} AgreeSet(bytes: seq<bv8>, ones: set<nat>, n: nat, page: nat)
    requires n <= 8 * |bytes| && page < 8 * |bytes| && Agree(bytes, ones, n)
    ensures Agree(bytes[page / 8 := bytes[page / 8] | Mask(page % 8)], ones + {page}, n)
  {
    if n > 0 {
      AgreeSet(bytes, ones, n - 1, page);
      if (n - 1) / 8 == page / 8 { SetBit(bytes[page / 8], page % 8, (n - 1) % 8); }
    }
  }

  lemma {:induction false} AgreeClear(bytes: seq<bv8>, ones: set<nat>, n: nat, page: nat)
    requires n <= 8 * |bytes| && page < 8 * |bytes| && Agree(bytes, ones, n)
    ensures Agree(bytes[page / 8 := bytes[page / 8] & !Mask(page % 8)], ones - {page}, n)
  {
    if n > 0 {
      AgreeClear(bytes, ones, n - 1, page);
      if (n - 1) / 8 == page / 8 { ClearBit(bytes[page / 8], page % 8, (n - 1) % 8); }
    }
  }

  lemma {:induction false} AgreeFill(bytes: seq<bv8>, ones: set<nat>, n: nat, bit: bool)
    requires n <= 8 * |bytes| && forall i :: 0 <= i < |bytes| ==> bytes[i] == if bit then 0xFF else 0
    requires forall p :: 0 <= p < n ==> (p in ones <==> bit)
    ensures Agree(bytes, ones, n)
  {
    if n > 0 { AgreeFill(bytes, ones, n - 1, bit); }
  }

  predicate GetBit(bits: array<bv8>, page: nat)
    requires page < 8 * bits.Length
    reads bits
  {
    Bit(bits[..], page)
  }

  method Set(bits: array<bv8>, page: nat, ghost ones: set<nat>, ghost n: nat)
    requires page < 8 * bits.Length && n <= 8 * bits.Length && Agree(bits[..], ones, n)
    modifies bits
    ensures Agree(bits[..], ones + {page}, n)
  {
    AgreeSet(bits[..], ones, n, page);
    bits[page / 8] := bits[page / 8] | Mask(page % 8);
    assert bits[..] == old(bits[..])[page / 8 := old(bits[..])[page / 8] | Mask(page % 8)];
  }

  method Clear(bits: array<bv8>, page: nat, ghost ones: set<nat>, ghost n: nat)
    requires page < 8 * bits.Length && n <= 8 * bits.Length && Agree(bits[..], ones, n)
    modifies bits
    ensures Agree(bits[..], ones - {page}, n)
  {
    AgreeClear(bits[..], ones, n, page);
    bits[page / 8] := bits[page / 8] & !Mask(page % 8);
    assert bits[..] == old(bits[..])[page / 8 := old(bits[..])[page / 8] & !Mask(page % 8)];
  }

  // --------------------------------------------------------------- page ranges

  /** Pages were taken from below: none that is left lies under one that is gone. */
  ghost predicate FromBelow(free: set<nat>, free': set<nat>) {
    free' <= free && forall p, q :: p in free && p !in free' && q in free' ==> p < q
  }

  lemma FromBelowTrans(a: set<nat>, b: set<nat>, c: set<nat>)
    requires FromBelow(a, b) && FromBelow(b, c)
    ensures FromBelow(a, c)
  {}

  /** `count` pages from `start` are all in `free`. */
  ghost predicate RunAt(free: set<nat>, start: nat, count: nat) {
    forall p :: start <= p < start + count ==> p in free
  }

  ghost predicate HasRun(free: set<nat>, count: nat) {
    exists start: nat :: RunAt(free, start, count)
  }

  /** `count` managed pages from `start` that are all in use. */
  ghost predicate Held(managed: set<nat>, free: set<nat>, start: nat, count: nat) {
    forall p :: start <= p < start + count ==> p in managed && p !in free
  }

  /** A run that ends at `page` reaches back no further than the last page in use. */
  lemma NoRunYet(free: set<nat>, count: nat, page: nat, length: nat)
    requires 0 < length < count && length <= page + 1
    requires page + 1 > length ==> page - length !in free
    requires forall s: nat :: s + count <= page ==> !RunAt(free, s, count)
    ensures forall s: nat :: s + count <= page + 1 ==> !RunAt(free, s, count)
  {}

  /** How many of the pages below `n` are in `s`. */
  ghost function Count(s: set<nat>, n: nat): nat {
    if n == 0 then 0 else Count(s, n - 1) + if n - 1 in s then 1 else 0
  }

  lemma {:induction false} NoneCounted(n: nat)
    ensures Count({}, n) == 0
  {
    if n > 0 { NoneCounted(n - 1); }
  }

  lemma {:induction false} CountChange(s: set<nat>, t: set<nat>, n: nat, page: nat)
    requires page < n && page !in s && page in t
    requires forall p: nat :: p < n && p != page ==> (p in s <==> p in t)
    ensures Count(t, n) == Count(s, n) + 1
  {
    if page == n - 1 {
      CountSame(s, t, n - 1);
    } else {
      CountChange(s, t, n - 1, page);
    }
  }

  lemma {:induction false} CountSame(s: set<nat>, t: set<nat>, n: nat)
    requires forall p: nat :: p < n ==> (p in s <==> p in t)
    ensures Count(s, n) == Count(t, n)
  {
    if n > 0 { CountSame(s, t, n - 1); }
  }

  /** Counting agrees with the size of the set. */
  lemma {:induction false} CountIsSize(s: set<nat>, n: nat)
    requires forall p :: p in s ==> p < n
    ensures Count(s, n) == |s|
  {
    if n == 0 {
      assert s == {};
    } else {
      CountIsSize(s - {n - 1}, n - 1);
      CountSame(s - {n - 1}, s, n - 1);
      assert n - 1 in s ==> |s - {n - 1}| == |s| - 1;
      assert n - 1 !in s ==> s - {n - 1} == s;
    }
  }

  lemma RunFits(free: set<nat>, start: nat, count: nat, n: nat)
    requires RunAt(free, start, count) && forall p :: p in free ==> p < n
    ensures count <= Count(free, n)
  {
    CountIsSize(free, n);
    SpanSize(start, count);
    SubsetSize(Span(start, count), free);
  }

  /** A descriptor of the firmware memory map. */
  datatype Descriptor = Descriptor(conventional: bool, physicalStart: nat, pages: nat)

  datatype Range = Range(base: nat, size: nat)

  predicate InDescriptor(d: Descriptor, page: nat) {
    d.conventional && d.physicalStart / 4096 <= page < d.physicalStart / 4096 + d.pages
  }

  /** The page holds a byte of the range, which is cut off at the end of the 64-bit space. */
  predicate InRange(r: Range, page: nat) {
    r.size > 0 && r.base / 4096 <= page && page * 4096 < r.base + r.size
  }

  predicate InBytes(r: Range, x: nat) { r.base <= x < r.base + r.size }

  predicate OnPage(x: nat, page: nat) { 4096 * page <= x < 4096 * page + 4096 }

  /** Some byte of the range stands on the page. */
  ghost predicate HasByte(r: Range, page: nat) {
    exists x: nat :: InBytes(r, x) && OnPage(x, page)
  }

  lemma InRangeExactly(r: Range, page: nat)
    ensures InRange(r, page) <==> HasByte(r, page)
  {
    var first := if r.base < 4096 * page then 4096 * page else r.base;
    if InRange(r, page) { assert InBytes(r, first) && OnPage(first, page); }
  }

  /** A page that must not be handed out: below 1 MiB, or with a byte that the boot loader handed over. */
  ghost predicate Kept(boot: BootInfo, page: nat) {
    || page < 0x100 || HasByte(boot.kernelImage, page) || HasByte(boot.bootInfoStorage, page)
    || HasByte(boot.kernelStack, page) || HasByte(boot.bitmapStorage, page) || HasByte(boot.memoryMapStorage, page)
    || HasByte(boot.framebuffer, page) || (boot.rsdp != 0 && HasByte(Range(boot.rsdp, 4096), page))
  }

  ghost predicate Described(firmware: seq<Descriptor>, page: nat) {
    exists d :: d in firmware && InDescriptor(d, page)
  }

  ghost predicate Touched(ranges: seq<Range>, page: nat) {
    exists r :: r in ranges && InRange(r, page)
  }

  /** The pages below `n` that the firmware calls conventional memory. */
  ghost function Conventional(firmware: seq<Descriptor>, n: nat): set<nat> {
    set p: nat | p < n && Described(firmware, p)
  }

  /** The pages below `n` that a reserved range touches. */
  ghost function Reserved(ranges: seq<Range>, n: nat): set<nat> {
    set p: nat | p < n && Touched(ranges, p)
  }

  class PageAllocator {
    const usable: array<bv8>
    const used: array<bv8>
    const pageCount: nat
    var managedCount: nat
    var freeCount: nat
    /** The pages under management. */
    ghost var managed: set<nat>
    /** The pages marked in use, managed or not. */
    ghost var taken: set<nat>

    ghost predicate Shaped() {
      usable != used && pageCount <= 8 * usable.Length && pageCount <= 8 * used.Length && pageCount * PAGE < U64
    }

    /** The managed pages nobody holds. */
    ghost function Free(): set<nat>
      reads this
    {
      managed - taken
    }

    /** The bitmaps hold the page sets; the free counter is `drift` ahead of the free pages. */
    ghost predicate Drifted(drift: int)
      reads this, usable, used
    {
      && Shaped() && (forall p :: p in managed ==> p < pageCount)
      && Agree(usable[..], managed, pageCount) && Agree(used[..], taken, pageCount)
      && managedCount == Count(managed, pageCount) && freeCount == Count(Free(), pageCount) + drift
    }

    /** The bitmaps hold the page sets and the counters count them. */
    ghost predicate Valid()
      reads this, usable, used
    {
      Drifted(0)
    }

    /** The counters are the cardinalities of the managed and of the free pages. */
    lemma CountersAreSizes()
      requires Valid()
      ensures managedCount == |managed| && freeCount == |Free()|
    {
      CountIsSize(managed, pageCount);
      CountIsSize(Free(), pageCount);
    }

    /** Empty bitmaps: nothing managed, everything in use. */
    constructor (pages: nat, bitmapBytes: nat)
      requires pages <= 8 * bitmapBytes && pages * PAGE < U64
      ensures Valid() && managed == {} && pageCount == pages && fresh(usable) && fresh(used)
    {
      usable := new bv8[bitmapBytes](_ => 0);
      used := new bv8[bitmapBytes](_ => 0xFF);
      pageCount, managedCount, freeCount := pages, 0, 0;
      managed, taken := {}, Span(0, pages);
      new;
      CountSame({}, managed, pageCount);
      NoneCounted(pageCount);
      CountSame({}, Free(), pageCount);
      AgreeFill(usable[..], managed, pageCount, false);
      AgreeFill(used[..], taken, pageCount, true);
    }

    method IsUsable(page: nat) returns (r: bool)
      requires Valid() && page < pageCount
      ensures r <==> page in managed
    {
      AgreeAt(usable[..], managed, pageCount, page);
      r := GetBit(usable, page);
    }

    method IsUsed(page: nat) returns (r: bool)
      requires Valid() && page < pageCount
      ensures r <==> page in taken
    {
      AgreeAt(used[..], taken, pageCount, page);
      r := GetBit(used, page);
    }

    method MakeUsable(page: nat)
      requires Valid()
      modifies this, usable, used
      ensures Valid()
      ensures managed == old(managed) + if page < pageCount then {page} else {}
      ensures Free() == old(Free()) + if page < pageCount && page !in old(managed) then {page} else {}
    {
      if page >= pageCount { return; }
      var already := IsUsable(page);
      if already { return; }
      Set(usable, page, managed, pageCount);
      Clear(used, page, taken, pageCount);
      managedCount, freeCount := managedCount + 1, freeCount + 1;
      managed, taken := managed + {page}, taken - {page};
      assert Free() == old(Free()) + {page};
      CountChange(old(managed), managed, pageCount, page);
      CountChange(old(Free()), Free(), pageCount, page);
    }

    method ReservePage(page: nat)
      requires Valid()
      modifies this, usable, used
      ensures Valid() && managed == old(managed) - {page} && Free() == old(Free()) - {page}
    {
      if page >= pageCount { return; }
      var known := IsUsable(page);
      if !known { return; }
      CountChange(managed - {page}, managed, pageCount, page);
      Clear(usable, page, managed, pageCount);
      AgreeAt(used[..], taken, pageCount, page);
      if !GetBit(used, page) {
        CountChange(Free() - {page}, Free(), pageCount, page);
        freeCount := freeCount - 1;
      }
      Set(used, page, taken, pageCount);
      managedCount := managedCount - 1;
      managed, taken := managed - {page}, taken + {page};
      assert Free() == old(Free()) - {page};
      if page !in old(Free()) { CountSame(old(Free()), Free(), pageCount); }
    }

    method ReservePages(start: nat, end: nat)
      requires Valid() && start <= end
      modifies this, usable, used
      ensures Valid()
      ensures forall p :: p in managed <==> p in old(managed) && !(start <= p < end)
      ensures forall p :: p in Free() <==> p in old(Free()) && !(start <= p < end)
    {
      for page := start to end
        invariant Valid()
        invariant forall p :: p in managed <==> p in old(managed) && !(start <= p < page)
        invariant forall p :: p in Free() <==> p in old(Free()) && !(start <= p < page)
      {
        ReservePage(page);
      }
    }

    method ReserveRange(r: Range)
      requires Valid() && r.base < U64 && r.size < U64
      modifies this, usable, used
      ensures Valid()
      ensures managed == old(managed) - Reserved([r], pageCount)
      ensures Free() == old(Free()) - Reserved([r], pageCount)
    {
      ReservedSpan(r, pageCount);
      if r.size == 0 || r.base >= pageCount * PAGE { return; }
      var start := r.base / 4096;
      var lastByte := if r.size - 1 > U64 - 1 - r.base then U64 - 1 else r.base + r.size - 1;
      var end := lastByte / 4096 + 1;
      if end > pageCount { end := pageCount; }
      ReservePages(start, end);
    }

    method UsePages(first: nat, count: nat)
      requires Valid() && Free() == managed && first + count <= pageCount
      modifies this, usable, used
      ensures Valid() && Free() == managed
      ensures forall p :: p in managed <==> p in old(managed) || first <= p < first + count
    {
      for i := 0 to count
        invariant Valid() && Free() == managed
        invariant forall p :: p in managed <==> p in old(managed) || first <= p < first + i
      {
        MakeUsable(first + i);
      }
    }

    method AddDescriptor(d: Descriptor)
      requires Valid() && Free() == managed
      modifies this, usable, used
      ensures Valid() && Free() == managed
      ensures managed == old(managed) + Conventional([d], pageCount)
    {
      ConventionalSpan(d, pageCount);
      if !d.conventional { return; }
      var first, count := d.physicalStart / 4096, d.pages;
      if first >= pageCount { return; }
      if count > pageCount - first { count := pageCount - first; }
      UsePages(first, count);
    }

    /** The ranges pmm_init keeps: low memory and every live handoff allocation. */
    static function BootRanges(boot: BootInfo): seq<Range> {
      [Range(0, 0x100000), boot.kernelImage, boot.bootInfoStorage, boot.kernelStack, boot.bitmapStorage,
       boot.memoryMapStorage, boot.framebuffer] + if boot.rsdp != 0 then [Range(boot.rsdp, PAGE)] else []
    }

    static lemma KeptExactly(boot: BootInfo, page: nat)
      ensures Touched(BootRanges(boot), page) <==> Kept(boot, page)
    {
      var ranges := BootRanges(boot);
      forall r ensures InRange(r, page) <==> HasByte(r, page) { InRangeExactly(r, page); }
      assert InRange(ranges[0], page) <==> page < 0x100;
      if Kept(boot, page) {
        assert ranges[0] in ranges && ranges[1] in ranges && ranges[2] in ranges && ranges[3] in ranges;
        assert ranges[4] in ranges && ranges[5] in ranges && ranges[6] in ranges;
        if boot.rsdp != 0 { assert ranges[7] in ranges; }
      }
    }

    /**
    pmm_init, whatever overlaps the memory map has: exactly the conventional pages that no
    reserved range touches are managed, and all of them are Free().
    */
    method Init(boot: BootInfo) returns (ok: bool)
      requires Valid() && managed == {}
      requires forall r :: r in BootRanges(boot) ==> r.base < U64 && r.size < U64
      modifies this, usable, used
      ensures Valid() && Free() == managed
      ensures managed == Conventional(boot.memoryMap, pageCount) - Reserved(BootRanges(boot), pageCount)
      ensures forall p: nat :: p in managed <==>
        p < pageCount && Described(boot.memoryMap, p) && !Kept(boot, p)
      ensures ok <==> managed != {}
      ensures 0 !in managed
    {
      Populate(boot.memoryMap);
      var ranges := BootRanges(boot);
      ReserveAll(ranges);
      forall p: nat ensures Touched(ranges, p) <==> Kept(boot, p) { KeptExactly(boot, p); }
      assert Kept(boot, 0) && Touched(ranges, 0);
      ok := managedCount != 0;
      CountersAreSizes();
    }

    method Populate(firmware: seq<Descriptor>)
      requires Valid() && managed == {}
      modifies this, usable, used
      ensures Valid() && Free() == managed == Conventional(firmware, pageCount)
    {
      assert Conventional(firmware[..0], pageCount) == {};
      for i := 0 to |firmware|
        invariant Valid() && Free() == managed && managed == Conventional(firmware[..i], pageCount)
      {
        ConventionalStep(firmware, i, pageCount);
        AddDescriptor(firmware[i]);
      }
      assert firmware[..|firmware|] == firmware;
    }

    method ReserveAll(ranges: seq<Range>)
      requires Valid() && Free() == managed
      requires forall r :: r in ranges ==> r.base < U64 && r.size < U64
      modifies this, usable, used
      ensures Valid() && Free() == managed && managed == old(managed) - Reserved(ranges, pageCount)
    {
      assert Reserved(ranges[..0], pageCount) == {};
      for i := 0 to |ranges|
        invariant Valid() && Free() == managed && managed == old(managed) - Reserved(ranges[..i], pageCount)
      {
        ReservedStep(ranges, i, pageCount);
        assert ranges[i] in ranges;
        ReserveRange(ranges[i]);
      }
      assert ranges[..|ranges|] == ranges;
    }

    /**
    Takes the lowest run of `count` free pages; 0 exactly when there is none, and then nothing
    changes. (Page 0 is never managed, so 0 is no address of a run.)
    */
    method AllocPages(count: nat) returns (address: nat)
      requires Valid() && 0 !in managed
      modifies this, usable, used
      ensures Valid() && managed == old(managed)
      ensures address == 0 <==> count == 0 || !HasRun(old(Free()), count)
      ensures address == 0 ==> Free() == old(Free())
      ensures address != 0 ==> address % 4096 == 0 && RunAt(old(Free()), address / 4096, count)
      ensures address != 0 ==> forall s: nat :: s < address / 4096 ==> !RunAt(old(Free()), s, count)
      ensures address != 0 ==> Free() == old(Free()) - Span(address / 4096, count)
    {
      if count == 0 { return 0; }
      if count > freeCount {
        if HasRun(Free(), count) {
          var s: nat :| RunAt(Free(), s, count);
          RunFits(Free(), s, count, pageCount);
        }
        return 0;
      }
      var found, start := FindRun(count);
      if !found { return 0; }
      TakeRun(start, count);
      assert start in old(Free());
      return start * 4096;
    }

    method AllocPage() returns (address: nat)
      requires Valid() && 0 !in managed
      modifies this, usable, used
      ensures Valid() && managed == old(managed)
      ensures address == 0 <==> old(Free()) == {}
      ensures address == 0 ==> Free() == old(Free())
      ensures address != 0 ==> address % 4096 == 0 && address / 4096 in old(Free())
      ensures address != 0 ==> Free() == old(Free()) - {address / 4096}
      ensures FromBelow(old(Free()), Free())
    {
      ghost var free := Free();
      if p :| p in free { assert RunAt(free, p, 1); }
      if HasRun(free, 1) {
        var s: nat :| RunAt(free, s, 1);
        assert s in free;
      }
      address := AllocPages(1);
      if address != 0 {
        forall q | q in free ensures address / 4096 <= q { assert RunAt(free, q, 1); }
      }
    }

    /** The search loop of pmm_alloc_pages. */
    method FindRun(count: nat) returns (found: bool, start: nat)
      requires Valid() && count > 0
      ensures found <==> HasRun(Free(), count)
      ensures found ==> RunAt(Free(), start, count) && forall s: nat :: s < start ==> !RunAt(Free(), s, count)
    {
      start := 0;
      var length := 0;
      for page := 0 to pageCount
        invariant length < count && length <= page && (length > 0 ==> start == page - length)
        invariant RunAt(Free(), page - length, length)
        invariant page > length ==> page - length - 1 !in Free()
        invariant forall s: nat :: s + count <= page ==> !RunAt(Free(), s, count)
      {
        var u := IsUsable(page);
        var v := IsUsed(page);
        if u && !v {
          if length == 0 { start := page; }
          length := length + 1;
          if length == count {
            assert RunAt(Free(), start, count);
            return true, start;
          }
          NoRunYet(Free(), count, page, length);
        } else {
          assert forall s: nat :: s + count == page + 1 && RunAt(Free(), s, count) ==> page in Free();
          length := 0;
        }
      }
      assert forall s: nat :: RunAt(Free(), s, count) ==> s + count - 1 in Free();
      return false, start;
    }

    /** Marks a run of free pages used. */
    method TakeRun(start: nat, count: nat)
      requires Valid() && RunAt(Free(), start, count)
      modifies this, usable, used
      ensures Valid() && managed == old(managed) && Free() == old(Free()) - Span(start, count)
    {
      for page := start to start + count
        invariant Drifted(page - start) && managed == old(managed) && freeCount == old(freeCount)
        invariant forall p :: p in Free() <==> p in old(Free()) && !(start <= p < page)
      {
        MarkUsed(page, page - start);
      }
      freeCount := freeCount - count;
    }

    method MarkUsed(page: nat, ghost drift: int)
      requires Drifted(drift) && page in Free()
      modifies this`taken, used
      ensures Drifted(drift + 1) && Free() == old(Free()) - {page}
    {
      CountChange(Free() - {page}, Free(), pageCount, page);
      Set(used, page, taken, pageCount);
      taken := taken + {page};
      assert Free() == old(Free()) - {page};
    }

    method MarkFree(page: nat, ghost drift: int)
      requires Drifted(drift) && page in managed && page !in Free()
      modifies this`taken, used
      ensures Drifted(drift - 1) && Free() == old(Free()) + {page}
    {
      CountChange(Free(), Free() + {page}, pageCount, page);
      Clear(used, page, taken, pageCount);
      taken := taken - {page};
      assert Free() == old(Free()) + {page};
    }

    /** Gives pages back, all or none: refused unless every one is managed and in use. */
    method ReleasePages(address: nat, count: nat) returns (ok: bool)
      requires Valid() && address < U64 && count < U64
      modifies this, usable, used
      ensures Valid() && managed == old(managed)
      ensures ok <==> address % 4096 == 0 && count > 0 && Held(old(managed), old(Free()), address / 4096, count)
      ensures Free() == old(Free()) + if ok then Span(address / 4096, count) else {}
    {
      if address % 4096 != 0 { return false; }
      var first := address / 4096;
      assert count > 0 && Held(managed, Free(), first, count) ==> first + count - 1 in managed;
      if count == 0 || first >= pageCount || count > pageCount - first { return false; }
      var held := AllHeld(first, count);
      if !held { return false; }
      GiveRun(first, count);
      return true;
    }

    /** The checking loop of the release. */
    method AllHeld(first: nat, count: nat) returns (held: bool)
      requires Valid() && first + count <= pageCount
      ensures held <==> Held(managed, Free(), first, count)
    {
      for page := first to first + count
        invariant forall p :: first <= p < page ==> p in managed && p in taken
      {
        var u := IsUsable(page);
        var v := IsUsed(page);
        if !u || !v { return false; }
      }
      return true;
    }

    method FreePage(address: nat) returns (ok: bool)
      requires Valid() && address < U64
      modifies this, usable, used
      ensures Valid() && managed == old(managed)
      ensures ok <==> address % 4096 == 0 && address / 4096 in old(managed) && address / 4096 !in old(Free())
      ensures Free() == old(Free()) + if ok then {address / 4096} else {}
    {
      ghost var page := address / 4096;
      assert Held(managed, Free(), page, 1) <==> page in managed && page !in Free();
      assert Span(page, 1) == {page};
      ok := ReleasePages(address, 1);
    }

    /** Marks a run of pages in use free again. */
    method GiveRun(start: nat, count: nat)
      requires Valid() && Held(managed, Free(), start, count)
      modifies this, usable, used
      ensures Valid() && managed == old(managed) && Free() == old(Free()) + Span(start, count)
    {
      for page := start to start + count
        invariant Drifted(start - page) && managed == old(managed) && freeCount == old(freeCount)
        invariant forall p :: p in Free() <==> p in old(Free()) || start <= p < page
      {
        MarkFree(page, start - page);
      }
      freeCount := freeCount + count;
    }

    /** pmm_validate recounts both bitmaps: it answers whether the counters are right. */
    method Validate() returns (ok: bool)
      requires Shaped() && (forall p :: p in managed ==> p < pageCount)
      requires Agree(usable[..], managed, pageCount) && Agree(used[..], taken, pageCount)
      ensures ok <==> managedCount == |managed| && freeCount == |Free()|
      ensures ok <==> Valid()
    {
      var m, f := 0, 0;
      for page := 0 to pageCount
        invariant m == Count(managed, page) && f == Count(Free(), page) && f <= m
      {
        AgreeAt(usable[..], managed, pageCount, page);
        AgreeAt(used[..], taken, pageCount, page);
        if GetBit(usable, page) {
          m := m + 1;
          if !GetBit(used, page) { f := f + 1; }
        }
      }
      CountIsSize(managed, pageCount);
      CountIsSize(Free(), pageCount);
      ok := m == managedCount && f == freeCount && freeCount <= managedCount;
    }
  }

  /** What the boot loader hands over to pmm_init. */
  datatype BootInfo = BootInfo(
    memoryMap: seq<Descriptor>, kernelImage: Range, bootInfoStorage: Range, kernelStack: Range,
    bitmapStorage: Range, memoryMapStorage: Range, framebuffer: Range, rsdp: nat)

  /** A range touches one stretch of the pages below `n`, computed as reserve_range does. */
  lemma ReservedSpan(r: Range, n: nat)
    requires r.base < U64 && r.size < U64 && n * PAGE < U64
    ensures r.size == 0 || r.base >= n * PAGE ==> Reserved([r], n) == {}
    ensures r.size > 0 && r.base < n * PAGE ==>
      var last := if r.size - 1 > U64 - 1 - r.base then U64 - 1 else r.base + r.size - 1;
      var end := if last / 4096 + 1 > n then n else last / 4096 + 1;
      r.base / 4096 <= end && forall p :: p in Reserved([r], n) <==> r.base / 4096 <= p < end
  {
    assert forall p: nat :: Touched([r], p) <==> InRange(r, p) by {
      assert r in [r];
    }
  }

  lemma ConventionalSpan(d: Descriptor, n: nat)
    ensures var first := d.physicalStart / 4096;
      forall p :: p in Conventional([d], n) <==>
        d.conventional && first <= p < first + d.pages && p < n
  {
    assert forall p: nat :: Described([d], p) <==> InDescriptor(d, p) by {
      assert d in [d];
    }
  }

  lemma ConventionalStep(firmware: seq<Descriptor>, i: nat, n: nat)
    requires i < |firmware|
    ensures Conventional(firmware[..i + 1], n) == Conventional(firmware[..i], n) + Conventional([firmware[i]], n)
  {}

  lemma ReservedStep(ranges: seq<Range>, i: nat, n: nat)
    requires i < |ranges|
    ensures Reserved(ranges[..i + 1], n) == Reserved(ranges[..i], n) + Reserved([ranges[i]], n)
  {}
}
