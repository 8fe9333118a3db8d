/**
Building and changing page tables: the kernel's identity mapping with its unmapped stack
guard, later cache attributes for device memory, and the per-process user spaces.
*/
module Paging {
  import opened Common
  import opened PageTables
  import opened Pmm
  import opened TableDepth

  const LARGE_PAGE: nat := 0x20_0000

  /** Frames that are managed and handed out. */
  ghost predicate InUse(frames: set<nat>, managed: set<nat>, free: set<nat>) {
    forall f :: f in frames ==> f % 4096 == 0 && f / 4096 in managed && f / 4096 !in free
  }

  /** A frame that was free joins the frames in use and is none of them. */
  lemma InUseJoin(frames: set<nat>, managed: set<nat>, free: set<nat>, t: nat)
    requires InUse(frames, managed, free) && t % 4096 == 0 && t / 4096 in free && free <= managed
    ensures t !in frames && InUse(frames + {t}, managed, free - {t / 4096})
  {}

  /** Physical memory: the page allocator, the words of page tables and the bytes of data pages. */
  class Memory {
    const pmm: PageAllocator
    var words: Words
    var bytes: map<nat, seq<nat>>

    constructor (pmm: PageAllocator)
      ensures this.pmm == pmm && words == map[] && bytes == map[]
    {
      this.pmm, words, bytes := pmm, map[], map[];
    }

    ghost predicate Valid()
      reads pmm, pmm.usable, pmm.used
    {
      pmm.Valid() && 0 !in pmm.managed
    }

    /** A zeroed frame that nobody held, or 0 when none is free. */
    method AllocateTable() returns (frame: nat)
      requires Valid()
      modifies this, pmm, pmm.usable, pmm.used
      ensures Valid() && pmm.managed == old(pmm.managed) && bytes == old(bytes)
      ensures frame == 0 <==> old(pmm.Free()) == {}
      ensures frame == 0 ==> words == old(words) && pmm.Free() == old(pmm.Free())
      ensures frame != 0 ==> frame % 4096 == 0 && words == Zeroed(old(words), frame)
      ensures frame != 0 ==> frame / 4096 in old(pmm.Free()) && pmm.Free() == old(pmm.Free()) - {frame / 4096}
      ensures FromBelow(old(pmm.Free()), pmm.Free())
    {
      frame := pmm.AllocPage();
      if frame == 0 { return; }
      words := Zeroed(words, frame);
    }
  }

  // ------------------------------------------------------------- kernel mapping

  /** Two ranges share a byte, each cut off at the end of the 64-bit space. */
  predicate Overlaps(base: nat, size: nat, otherBase: nat, otherSize: nat) {
    size != 0 && otherSize != 0 &&
    var end := if base > U64 - 1 - size then U64 - 1 else base + size;
    var otherEnd := if otherBase > U64 - 1 - otherSize then U64 - 1 else otherBase + otherSize;
    base < otherEnd && otherBase < end
  }

  function RangeEnd(r: Range): nat
    requires r.size < U64
  {
    if r.base > U64 - 1 - r.size then U64 - 1 else r.base + r.size
  }

  predicate Within(x: nat, base: nat, size: nat) { base <= x < base + size }

  /** Some byte of the 2 MiB at `base` lies in a range. */
  ghost predicate Meets(base: nat, start: nat, size: nat) {
    exists x: nat :: Within(x, base, LARGE_PAGE) && Within(x, start, size)
  }

  /** Below 2^47 the cut at the end of the space plays no part. */
  lemma OverlapsMeets(base: nat, start: nat, size: nat)
    requires base <= 0x8000_0000_0000
    ensures Overlaps(base, LARGE_PAGE, start, size) <==> Meets(base, start, size)
  {
    var first := if base < start then start else base;
    if Overlaps(base, LARGE_PAGE, start, size) {
      assert Within(first, base, LARGE_PAGE) && Within(first, start, size);
    }
  }

  /** No entry of a kernel root is open to user mode. */
  ghost predicate NoUser(w: Words, root: nat) {
    forall i: nat :: U !in Entry(w, root, i).bits
  }

  /** No translation differs between `w` and `w'`. */
  ghost predicate SameMap(w: Words, w': Words, root: nat) {
    forall v: Vpn :: v.i1 < 512 ==> Resolve(w', root, v) == Resolve(w, root, v)
  }

  lemma AttachSame(w: Words, nodes: map<nat, Node>, root: nat, f: nat, i: nat, t: nat)
    requires Tree(w, nodes, root, Kernel) && f in nodes && !nodes[f].Leaf? && t !in nodes && P !in Entry(w, f, i).bits
    ensures SameMap(w, Attached(w, f, i, t, {P, W}), root)
    ensures NoUser(w, root) ==> NoUser(Attached(w, f, i, t, {P, W}), root)
  {
    assert forall j: nat :: (root, j) != (f, i) ==> Entry(Attached(w, f, i, t, {P, W}), root, j) == Entry(w, root, j);
    forall v: Vpn ensures Resolve(Attached(w, f, i, t, {P, W}), root, v) == Resolve(w, root, v) {
      AttachResolve(w, nodes, root, f, i, t, {P, W}, v);
    }
  }

  lemma SameTrans(w: Words, w1: Words, w2: Words, root: nat)
    requires SameMap(w, w1, root) && SameMap(w1, w2, root)
    ensures SameMap(w, w2, root)
  {}

  /** `w'` differs from `w` by the large leaf `e` over the 2 MiB region of `s`. */
  ghost predicate LargeMapped(w: Words, w': Words, root: nat, s: Vpn, e: Pte) {
    forall v: Vpn :: v.i1 < 512 ==> Resolve(w', root, v) == WithLarge(w, root, s, e, v)
  }

  lemma LargeTrans(w: Words, w1: Words, w2: Words, root: nat, s: Vpn, e: Pte)
    requires SameMap(w, w1, root) && LargeMapped(w1, w2, root, s, e)
    ensures LargeMapped(w, w2, root, s, e)
  {}

  /** `w'` differs from `w` by the absence of the page `s`. */
  ghost predicate Holed(w: Words, w': Words, root: nat, s: Vpn) {
    forall v: Vpn :: v.i1 < 512 ==> Resolve(w', root, v) == if v == s then None else Resolve(w, root, v)
  }

  lemma HoleTrans(w: Words, w1: Words, w2: Words, root: nat, s: Vpn)
    requires SameMap(w, w1, root) && Holed(w1, w2, root, s)
    ensures Holed(w, w2, root, s)
  {}

  /** The translation of `v` once the 2 MiB region of `s` has the large leaf `e`. */
  function WithLarge(w: Words, root: nat, s: Vpn, e: Pte, v: Vpn): Option<Mapping> {
    if SameLarge(v, s) then Some(Mapping(e.address + v.i1 * 4096, e.bits - {LARGE})) else Resolve(w, root, v)
  }

  /** A large leaf in a page directory answers for its 2 MiB region and for nothing else. */
  lemma LargeLeaf(w: Words, nodes: map<nat, Node>, root: nat, pd: nat, s: Vpn, e: Pte)
    requires Tree(w, nodes, root, Kernel) && pd in nodes && nodes[pd] == Low(s.i4, s.i3)
    requires Reaches(w, root, s, pd) && P in e.bits && LARGE in e.bits && e.address % 0x20_0000 == 0
    ensures Tree(w[(pd, s.i2) := e], nodes, root, Kernel)
    ensures LargeMapped(w, w[(pd, s.i2) := e], root, s, e)
  {}

  /** Only the region of `s` may have become a table of small pages. */
  ghost predicate SplitOnly(w: Words, w': Words, root: nat, s: Vpn) {
    forall v: Vpn :: Depth(w', root, v) == if SameLarge(v, s) then 3 else Depth(w, root, v)
  }

  lemma PutLarge(w: Words, w1: Words, nodes: map<nat, Node>, root: nat, pd: nat, s: Vpn, e: Pte)
    requires Tree(w1, nodes, root, Kernel) && pd in nodes && nodes[pd] == Low(s.i4, s.i3) && Reaches(w1, root, s, pd)
    requires Opened(w, w1, root, s) && P in e.bits && LARGE in e.bits
    ensures Grown(w, w1[(pd, s.i2) := e], root, s)
  {
    PutDirectory(w1, nodes, root, pd, s, e);
  }

  lemma SplitDepth(w: Words, w': Words, nodes: map<nat, Node>, root: nat, pd: nat, s: Vpn, pt: nat)
    requires Tree(w, nodes, root, Kernel) && pd in nodes && nodes[pd] == Low(s.i4, s.i3) && Reaches(w, root, s, pd)
    requires pt !in nodes && forall g, j: nat :: g != pt ==> Entry(w', g, j) == Entry(w, g, j)
    ensures SplitOnly(w, w'[(pd, s.i2) := Pte(pt, {P, W})], root, s)
  {
    OutsideTree(w, w', nodes, root);
    SameTree(w, w', nodes, root);
    PutDirectory(w', nodes, root, pd, s, Pte(pt, {P, W}));
  }

  lemma SameTree(w: Words, w': Words, nodes: map<nat, Node>, root: nat)
    requires Tree(w, nodes, root, Kernel) && forall g, j: nat :: g in nodes ==> Entry(w', g, j) == Entry(w, g, j)
    ensures Tree(w', nodes, root, Kernel)
  {}

  lemma ClearDepth(w: Words, w1: Words, nodes: map<nat, Node>, root: nat, pt: nat, s: Vpn)
    requires Tree(w1, nodes, root, Kernel) && pt in nodes && nodes[pt].Leaf? && SplitOnly(w, w1, root, s)
    ensures SplitOnly(w, w1[(pt, s.i1) := ABSENT], root, s)
  {
    var w2 := w1[(pt, s.i1) := ABSENT];
    forall v: Vpn ensures Depth(w2, root, v) == if SameLarge(v, s) then 3 else Depth(w, root, v) {
      PutApart(w1, nodes, root, pt, s.i1, ABSENT, v);
    }
  }

  /** A word below the root leaves the root's words alone. */
  lemma BelowRoot(w: Words, root: nat, f: nat, i: nat, e: Pte)
    requires f != root && NoUser(w, root)
    ensures NoUser(w[(f, i) := e], root)
  {
    var w' := w[(f, i) := e];
    assert forall j: nat :: Entry(w', root, j) == Entry(w, root, j);
  }

  lemma ReachWalk(w: Words, root: nat, s: Vpn, pd: nat, v: Vpn)
    requires Reaches(w, root, s, pd) && v.i4 == s.i4 && v.i3 == s.i3
    ensures Resolve(w, root, v) == Walk(w, pd, 2, v)
  {}

  /** The walk to `s` finds a present word in the page directory. */
  predicate Present(w: Words, root: nat, s: Vpn) {
    Depth(w, root, s) >= 3
  }

  /** The walk to `s` passes through page directory `pd`. */
  predicate Reaches(w: Words, root: nat, s: Vpn, pd: nat) {
    var e4 := Entry(w, root, s.i4);
    P in e4.bits &&
    var e3 := Entry(w, e4.address, s.i3);
    P in e3.bits && e3.address == pd
  }

  /** `w'` is `w` with frame `pt` holding 512 small leaves over the 2 MiB at `base`. */
  ghost predicate Filled(w: Words, w': Words, pt: nat, base: nat, bits: set<nat>, n: nat) {
    && (forall g, j: nat :: g != pt ==> Entry(w', g, j) == Entry(w, g, j))
    && (forall j: nat :: Entry(w', pt, j) == if j < n then Pte(base + j * 4096, bits) else ABSENT)
  }

  lemma FilledStep(w: Words, w': Words, pt: nat, base: nat, bits: set<nat>, n: nat)
    requires Filled(w, w', pt, base, bits, n)
    ensures Filled(w, w'[(pt, n) := Pte(base + n * 4096, bits)], pt, base, bits, n + 1)
  {
    var w2 := w'[(pt, n) := Pte(base + n * 4096, bits)];
    forall g, j: nat | g != pt ensures Entry(w2, g, j) == Entry(w, g, j) {
      assert Entry(w2, g, j) == Entry(w', g, j);
    }
    forall j: nat ensures Entry(w2, pt, j) == if j < n + 1 then Pte(base + j * 4096, bits) else ABSENT {
      if j != n { assert Entry(w2, pt, j) == Entry(w', pt, j); }
    }
  }

  /** Splitting a large leaf into a table of small ones changes no translation. */
  lemma SplitKeeps(w: Words, w': Words, nodes: map<nat, Node>, root: nat, pd: nat, s: Vpn, pt: nat)
    requires Tree(w, nodes, root, Kernel) && pd in nodes && nodes[pd] == Low(s.i4, s.i3) && Reaches(w, root, s, pd)
    requires pt !in nodes && P in Entry(w, pd, s.i2).bits && LARGE in Entry(w, pd, s.i2).bits
    requires var e := Entry(w, pd, s.i2); Filled(w, w', pt, e.address / 0x20_0000 * 0x20_0000, e.bits - {LARGE}, 512)
    ensures Tree(w'[(pd, s.i2) := Pte(pt, {P, W})], nodes[pt := Leaf(s.i4, s.i3, s.i2)], root, Kernel)
    ensures SameMap(w, w'[(pd, s.i2) := Pte(pt, {P, W})], root)
  {
    var w2, nodes2 := w'[(pd, s.i2) := Pte(pt, {P, W})], nodes[pt := Leaf(s.i4, s.i3, s.i2)];
    assert forall g, j: nat :: g != pt && (g, j) != (pd, s.i2) ==> Entry(w2, g, j) == Entry(w, g, j);
    assert pd != pt && forall j: nat :: Entry(w2, pt, j) == Entry(w', pt, j);
    forall v: Vpn | v.i1 < 512 ensures Resolve(w2, root, v) == Resolve(w, root, v) {
      SplitKeepsAt(w, w2, nodes, root, root, 4, pd, s, pt, v);
    }
  }

  lemma {:induction false} SplitKeepsAt(w: Words, w2: Words, nodes: map<nat, Node>, root: nat, frame: nat, level: nat,
      pd: nat, s: Vpn, pt: nat, v: Vpn)
    requires Tree(w, nodes, root, Kernel) && pd in nodes && nodes[pd] == Low(s.i4, s.i3)
    requires 1 <= level <= 4 && frame in nodes && nodes[frame] == NodeOn(v, level)
    requires pt !in nodes && P in Entry(w, pd, s.i2).bits && LARGE in Entry(w, pd, s.i2).bits && v.i1 < 512
    requires forall g, j: nat :: g != pt && (g, j) != (pd, s.i2) ==> Entry(w2, g, j) == Entry(w, g, j)
    requires Entry(w2, pd, s.i2) == Pte(pt, {P, W})
    requires var e := Entry(w, pd, s.i2);
      Entry(w2, pt, v.i1) == Pte(e.address / 0x20_0000 * 0x20_0000 + v.i1 * 4096, e.bits - {LARGE})
    ensures Walk(w2, frame, level, v) == Walk(w, frame, level, v)
    decreases level
  {
    var x := Entry(w, frame, Index(v, level));
    if (frame, Index(v, level)) == (pd, s.i2) {
      assert level == 2;
      assert Walk(w2, pd, 2, v) == Walk(w2, pt, 1, v);
    } else {
      assert Entry(w2, frame, Index(v, level)) == x;
      if Leads(x, nodes[frame]) { SplitKeepsAt(w, w2, nodes, root, x.address, level - 1, pd, s, pt, v); }
    }
  }

  /** Clearing the word of one page in a leaf table takes that page away and no other. */
  lemma ClearLeaf(w: Words, nodes: map<nat, Node>, root: nat, pd: nat, pt: nat, s: Vpn)
    requires Tree(w, nodes, root, Kernel) && pd in nodes && nodes[pd] == Low(s.i4, s.i3)
    requires pt in nodes && nodes[pt] == Leaf(s.i4, s.i3, s.i2) && Reaches(w, root, s, pd)
    requires var e := Entry(w, pd, s.i2); P in e.bits && LARGE !in e.bits && e.address == pt
    ensures Tree(w[(pt, s.i1) := ABSENT], nodes, root, Kernel)
    ensures Holed(w, w[(pt, s.i1) := ABSENT], root, s)
  {}

  /** What paging_init reads of the boot information and the ACPI tables. */
  datatype Layout = Layout(
    kernelImage: Range, bootInfoStorage: Range, kernelStack: Range, stackGuard: Range, bitmapStorage: Range,
    memoryMapStorage: Range, framebuffer: Range, pmmPages: nat, localApic: nat, ioApic: nat, deviceMap: seq<Descriptor>)
  {
    /** All fields fit in 64 bits. */
    predicate Fits() {
      && (forall r :: r in Ranges() ==> r.base < U64 && r.size < U64)
      && pmmPages < U64 && localApic < U64 && ioApic < U64
    }

    function Ranges(): seq<Range> {
      [kernelImage, bootInfoStorage, kernelStack, bitmapStorage, memoryMapStorage, framebuffer]
    }

    /** The ends paging_init compares. */
    function Ends(): seq<nat>
      requires Fits()
    {
      var rs := Ranges();
      [RangeEnd(rs[0]), RangeEnd(rs[1]), RangeEnd(rs[2]), RangeEnd(rs[3]), RangeEnd(rs[4]), RangeEnd(rs[5]),
       (localApic + 4096) % U64, (ioApic + 4096) % U64]
    }

    predicate GuardOk() {
      && kernelStack.size >= 2 * 4096 && stackGuard.base == kernelStack.base && stackGuard.size == 4096
      && stackGuard.base % 4096 == 0
      && Overlaps(kernelStack.base, kernelStack.size, stackGuard.base, stackGuard.size)
    }

    /** Whether the 2 MiB at `base` touch device memory. */
    predicate IsMmio(base: nat) {
      || Overlaps(base, LARGE_PAGE, framebuffer.base, framebuffer.size)
      || Overlaps(base, LARGE_PAGE, localApic, 4096)
      || Overlaps(base, LARGE_PAGE, ioApic, 4096)
      || exists d ::
           d in deviceMap && d.pages <= (U64 - 1) / 4096 && Overlaps(base, LARGE_PAGE, d.physicalStart, d.pages * 4096)
    }

    /** Attribute bits of the 2 MiB at `base` beyond present and writable. */
    function Flags(base: nat, nx: bool): set<nat> {
      (if nx && !Overlaps(base, LARGE_PAGE, kernelImage.base, kernelImage.size) then {NX} else {})
      + (if IsMmio(base) then {PCD, PWT} else {})
    }

    /** A byte of the 2 MiB at `base` belongs to the framebuffer, an APIC page or a device of the memory map. */
    ghost predicate HasDevice(base: nat) {
      || Meets(base, framebuffer.base, framebuffer.size) || Meets(base, localApic, 4096) || Meets(base, ioApic, 4096)
      || exists d ::
           d in deviceMap && d.pages <= (U64 - 1) / 4096 && Meets(base, d.physicalStart, d.pages * 4096)
    }

    /** An identity translation: only what shares 2 MiB with the kernel image is code, and with a device, uncached. */
    ghost predicate Right(va: nat, nx: bool, m: Mapping) {
      var base := va / 0x20_0000 * 0x20_0000;
      && m.address == va / 4096 * 4096 && P in m.bits && W in m.bits && m.bits <= {P, W, NX, PCD, PWT}
      && (NX in m.bits <==> nx && !Meets(base, kernelImage.base, kernelImage.size))
      && (PCD in m.bits <==> HasDevice(base)) && (PWT in m.bits <==> HasDevice(base))
    }

    lemma FlagsRight(va: nat, limit: nat, nx: bool)
      requires va < limit <= 0x8000_0000_0000
      ensures Right(va, nx, Identity(va, limit, nx).value)
    {
      var base := va / 0x20_0000 * 0x20_0000;
      OverlapsMeets(base, kernelImage.base, kernelImage.size);
      DeviceExactly(base);
    }

    lemma DeviceExactly(base: nat)
      requires base <= 0x8000_0000_0000
      ensures IsMmio(base) <==> HasDevice(base)
    {
      OverlapsMeets(base, framebuffer.base, framebuffer.size);
      OverlapsMeets(base, localApic, 4096);
      OverlapsMeets(base, ioApic, 4096);
      forall d | d in deviceMap
        ensures Overlaps(base, LARGE_PAGE, d.physicalStart, d.pages * 4096) <==>
          Meets(base, d.physicalStart, d.pages * 4096)
      {
        OverlapsMeets(base, d.physicalStart, d.pages * 4096);
      }
    }

    /** The guard is the first page of a stack of at least two pages. */
    lemma GuardExactly()
      requires Fits()
      ensures GuardOk() <==>
        kernelStack.size >= 8192 && stackGuard == Range(kernelStack.base, 4096) && kernelStack.base % 4096 == 0
    {
      assert kernelStack in Ranges();
    }

    /** A byte that must be mapped: of a boot range, an APIC page or a managed page. */
    ghost predicate Listed(x: nat) {
      || Within(x, kernelImage.base, kernelImage.size) || Within(x, bootInfoStorage.base, bootInfoStorage.size)
      || Within(x, kernelStack.base, kernelStack.size) || Within(x, bitmapStorage.base, bitmapStorage.size)
      || Within(x, memoryMapStorage.base, memoryMapStorage.size) || Within(x, framebuffer.base, framebuffer.size)
      || Within(x, localApic, 4096) || Within(x, ioApic, 4096) || x < 4096 * pmmPages
    }

    lemma RangeListed(r: Range, x: nat)
      requires r in Ranges() && Within(x, r.base, r.size)
      ensures Listed(x)
    {
      var i :| 0 <= i < 6 && r == Ranges()[i];
    }

    lemma ListedBelow(x: nat, m: nat)
      requires Listed(x) && forall r :: r in Ranges() ==> r.base + r.size <= m
      requires localApic + 4096 <= m && ioApic + 4096 <= m && 4096 * pmmPages <= m
      ensures x < m
    {
      var rs := Ranges();
      assert rs[0] in rs && rs[1] in rs && rs[2] in rs && rs[3] in rs && rs[4] in rs && rs[5] in rs;
    }

    /** Where a range, an APIC page or the managed pages end. */
    ghost predicate Ending(end: nat) {
      || end in {localApic + 4096, ioApic + 4096, 4096 * pmmPages}
      || exists r :: r in Ranges() && end == r.base + r.size
    }

    ghost predicate AllBelow(m: nat) { forall x: nat :: Listed(x) ==> x < m }

    /** The least whole number of 2 MiB regions that holds every such byte. */
    ghost predicate LeastCover(m: nat) {
      m % 0x20_0000 == 0 && AllBelow(m) && forall n: nat :: n % 0x20_0000 == 0 && AllBelow(n) ==> m <= n
    }

    /** The three sums that paging_init does not guard stay below 2^64. */
    predicate NoWrap() { localApic + 4096 < U64 && ioApic + 4096 < U64 && 4096 * pmmPages < U64 }

    /** An empty range starts beyond the last region that holds such a byte. */
    ghost predicate Stray(r: Range) {
      r.size == 0 && r.base > 0 && forall x: nat :: Listed(x) ==> x / 0x20_0000 < (r.base - 1) / 0x20_0000
    }

    lemma EndOf(i: nat)
      requires Fits() && NoWrap() && i < 8 && Ends()[i] < U64 - 1
      ensures Ending(Ends()[i])
    {
      if i < 6 {
        var r := Ranges()[i];
        assert r in Ranges() && Ends()[i] == RangeEnd(r);
      }
    }

    lemma HoldsExactly(m: nat)
      requires m <= 0x8000_0000_0000 && forall r :: r in Ranges() ==> r.base + r.size <= m
      requires localApic < U64 && (localApic + 4096) % U64 <= m && ioApic < U64 && (ioApic + 4096) % U64 <= m
      requires 4096 * pmmPages % U64 <= m
      ensures AllBelow(m) <==> NoWrap()
    {
      if NoWrap() {
        forall x: nat | Listed(x) ensures x < m { ListedBelow(x, m); }
      } else if localApic + 4096 >= U64 {
        assert Listed(localApic);
      } else if ioApic + 4096 >= U64 {
        assert Listed(ioApic);
      } else {
        assert Listed(4096 * pmmPages - 1);
      }
    }

    lemma StrayWaste(r: Range, m: nat)
      requires Stray(r) && r.base <= m
      ensures !LeastCover(m)
    {
      assert AllBelow((r.base - 1) / 0x20_0000 * 0x20_0000);
    }

    /** The translation of an address when everything below `limit` is mapped to itself. */
    function Identity(va: nat, limit: nat, nx: bool): Option<Mapping> {
      if va >= limit then None
      else Some(Mapping(va / 4096 * 4096, Flags(va / 0x20_0000 * 0x20_0000, nx) + {P, W}))
    }
  }

  /** Everything below `limit` maps to itself and nothing else is mapped. */
  ghost predicate IdentityTo(layout: Layout, nx: bool, w: Words, root: nat, limit: nat) {
    forall va: nat :: va < VIRTUAL_END ==> Resolve(w, root, Split(va)) == layout.Identity(va, limit, nx)
  }

  /** The same, except that the page at `hole` is absent. */
  ghost predicate IdentityBut(layout: Layout, nx: bool, w: Words, root: nat, limit: nat, hole: nat) {
    forall va: nat :: va < VIRTUAL_END ==>
      Resolve(w, root, Split(va)) == if va / 4096 == hole / 4096 then None else layout.Identity(va, limit, nx)
  }

  /** Exactly the addresses below `limit` off the hole are mapped, each with the right translation. */
  ghost predicate RightBut(layout: Layout, nx: bool, w: Words, root: nat, limit: nat, hole: nat) {
    forall va: nat :: va < VIRTUAL_END ==>
      var m := Resolve(w, root, Split(va));
      (m.Some? <==> va < limit && va / 4096 != hole / 4096) && (m.Some? ==> layout.Right(va, nx, m.value))
  }

  lemma IdentityRight(layout: Layout, nx: bool, w: Words, root: nat, limit: nat, hole: nat)
    requires limit <= 0x8000_0000_0000 && IdentityBut(layout, nx, w, root, limit, hole)
    ensures RightBut(layout, nx, w, root, limit, hole)
  {
    forall va: nat | va < limit ensures layout.Right(va, nx, layout.Identity(va, limit, nx).value) {
      layout.FlagsRight(va, limit, nx);
    }
  }

  const VIRTUAL_END: nat := 0x1_0000_0000_0000

  function MaxOf(s: seq<nat>, least: nat): (r: nat)
    ensures r >= least && forall i :: 0 <= i < |s| ==> r >= s[i]
    ensures r == least || r in s
  {
    if s == [] then least else MaxOf(s[1..], if s[0] > least then s[0] else least)
  }

  lemma SmallBits(flags: set<nat>)
    requires LARGE !in flags
    ensures (flags + {P, W, LARGE}) - {LARGE} == flags + {P, W}
  {}

  /** One more large page extends the identity mapping by 2 MiB. */
  lemma IdentityStep(layout: Layout, nx: bool, w: Words, w': Words, root: nat, address: nat)
    requires address % 0x20_0000 == 0 && address + 0x20_0000 <= VIRTUAL_END
    requires IdentityTo(layout, nx, w, root, address)
    requires LargeMapped(w, w', root, Split(address), Pte(address, layout.Flags(address, nx) + {P, W, LARGE}))
    ensures IdentityTo(layout, nx, w', root, address + 0x20_0000)
  {
    SmallBits(layout.Flags(address, nx));
    forall va: nat | va < VIRTUAL_END
      ensures Resolve(w', root, Split(va)) == layout.Identity(va, address + 0x20_0000, nx)
    {
      PageTables.SplitLarge(va, address);
      PageDigit(va);
    }
  }

  lemma IdentityHole(layout: Layout, nx: bool, w: Words, w': Words, root: nat, limit: nat, hole: nat)
    requires IdentityTo(layout, nx, w, root, limit) && hole < VIRTUAL_END && Holed(w, w', root, Split(hole))
    ensures IdentityBut(layout, nx, w', root, limit, hole)
  {
    forall va: nat | va < VIRTUAL_END
      ensures Resolve(w', root, Split(va)) == if va / 4096 == hole / 4096 then None else layout.Identity(va, limit, nx)
    {
      SplitPage(va, hole);
      assert Split(va).i1 < 512;
    }
  }

  lemma NextRegion(address: nat, limit: nat)
    requires address % 0x20_0000 == 0 && limit % 0x20_0000 == 0 && address < limit
    ensures address + 0x20_0000 <= limit && (address + 0x20_0000) % 0x20_0000 == 0
  {}

  lemma InRegion(hole: nat, limit: nat)
    requires hole < limit
    ensures Reach(hole, limit) == 4
  {
    NestedRegions(hole);
    assert hole / 0x20_0000 * 0x20_0000 <= hole;
  }

  /** Splitting one large page leaves the directory entries where they were. */
  lemma HolePresent(w: Words, w': Words, root: nat, limit: nat, hole: nat)
    requires ReachTo(w, root, limit) && SplitOnly(w, w', root, Split(hole)) && hole < limit <= VIRTUAL_END
    ensures PresentTo(w', root, limit)
  {
    forall va: nat | va < VIRTUAL_END
      ensures Depth(w', root, Split(va)) >= 3 <==> va / 0x20_0000 * 0x20_0000 < limit
    {
      assert Depth(w, root, Split(va)) == Reach(va, limit);
      PageTables.SplitLarge(va, hole);
      NestedRegions(va);
      assert hole / 0x20_0000 * 0x20_0000 <= hole;
    }
  }

  // ----------------------------------------------------------- cache attributes

  function Uncached(m: Option<Mapping>): Option<Mapping> {
    if m.None? then None else Some(Mapping(m.value.address, m.value.bits + {PCD, PWT}))
  }

  /** `w'` differs from `w` by cache attributes on the mapped pages of one 2 MiB region. */
  ghost predicate RegionMarked(w: Words, w': Words, root: nat, s: Vpn) {
    forall v: Vpn :: v.i1 < 512 ==>
      Resolve(w', root, v) == if SameLarge(v, s) then Uncached(Resolve(w, root, v)) else Resolve(w, root, v)
  }

  /** The same pages are mapped, to the same places. */
  ghost predicate SameTargets(w: Words, w': Words, root: nat) {
    forall v: Vpn :: v.i1 < 512 ==> SameTarget(Resolve(w, root, v), Resolve(w', root, v))
  }

  predicate SameTarget(m: Option<Mapping>, m': Option<Mapping>) {
    (m == None <==> m' == None) && (m.Some? && m'.Some? ==> m.value.address == m'.value.address)
  }

  lemma TargetsStep(w: Words, w1: Words, w2: Words, root: nat, s: Vpn)
    requires SameTargets(w, w1, root) && RegionMarked(w1, w2, root, s)
    ensures SameTargets(w, w2, root)
  {}

  lemma MarkLargeLeaf(w: Words, nodes: map<nat, Node>, root: nat, pd: nat, s: Vpn)
    requires Tree(w, nodes, root, Kernel) && pd in nodes && nodes[pd] == Low(s.i4, s.i3) && Reaches(w, root, s, pd)
    requires var e := Entry(w, pd, s.i2); P in e.bits && LARGE in e.bits
    ensures var e := Entry(w, pd, s.i2); var w' := w[(pd, s.i2) := e.(bits := e.bits + {PCD, PWT})];
      Tree(w', nodes, root, Kernel) && RegionMarked(w, w', root, s)
  {
    var e := Entry(w, pd, s.i2);
    var e' := e.(bits := e.bits + {PCD, PWT});
    var w' := w[(pd, s.i2) := e'];
    forall v: Vpn | v.i1 < 512
      ensures Resolve(w', root, v) == if SameLarge(v, s) then Uncached(Resolve(w, root, v)) else Resolve(w, root, v)
    {
      if SameLarge(v, s) {
        assert nodes[Entry(w, root, s.i4).address] == Mid(s.i4);
        assert Reaches(w', root, s, pd);
        ReachWalk(w', root, s, pd, v);
        ReachWalk(w, root, s, pd, v);
        assert Entry(w', pd, v.i2) == e';
        assert e'.bits - {LARGE} == (e.bits - {LARGE}) + {PCD, PWT};
      } else {
        PutElsewhere(w, nodes, root, pd, s.i2, e', v);
      }
    }
  }

  lemma MarkLargeDepth(w: Words, nodes: map<nat, Node>, root: nat, pd: nat, s: Vpn)
    requires Tree(w, nodes, root, Kernel) && pd in nodes && nodes[pd] == Low(s.i4, s.i3) && Reaches(w, root, s, pd)
    requires var e := Entry(w, pd, s.i2); P in e.bits && LARGE in e.bits
    ensures var e := Entry(w, pd, s.i2); SameDepth(w, w[(pd, s.i2) := e.(bits := e.bits + {PCD, PWT})], root)
  {
    var e := Entry(w, pd, s.i2);
    PutDirectory(w, nodes, root, pd, s, e.(bits := e.bits + {PCD, PWT}));
  }

  /** `w'` is `w` with the cache bits set in the first `n` present words of table `pt`. */
  ghost predicate TableMarked(w: Words, w': Words, pt: nat, n: nat) {
    forall g, j: nat :: Entry(w', g, j) ==
      var e := Entry(w, g, j);
      if g == pt && j < n && P in e.bits then e.(bits := e.bits + {PCD, PWT}) else e
  }

  lemma TableMarkedStep(w: Words, w': Words, pt: nat, n: nat)
    requires TableMarked(w, w', pt, n)
    ensures var e := Entry(w', pt, n);
      TableMarked(w, if P in e.bits then w'[(pt, n) := e.(bits := e.bits + {PCD, PWT})] else w', pt, n + 1)
  {}

  lemma {:induction false} TableMarkedWalk(w: Words, w': Words, nodes: map<nat, Node>, root: nat, frame: nat,
      level: nat, pt: nat, s: Vpn, v: Vpn)
    requires Tree(w, nodes, root, Kernel) && pt in nodes && nodes[pt] == Leaf(s.i4, s.i3, s.i2)
    requires TableMarked(w, w', pt, 512) && 1 <= level <= 4 && frame in nodes && nodes[frame] == NodeOn(v, level)
    requires v.i1 < 512 && (level == 1 ==> frame == pt || !SameLarge(v, s))
    requires level == 2 && SameLarge(v, s) ==> LeadsTo(Entry(w, frame, v.i2), pt)
    requires level == 3 && SameLarge(v, s) ==> LeadsTo(Entry(w, Entry(w, frame, v.i3).address, v.i2), pt)
    requires level == 4 && SameLarge(v, s) ==>
      LeadsTo(Entry(w, Entry(w, Entry(w, frame, v.i4).address, v.i3).address, v.i2), pt)
    ensures Walk(w', frame, level, v) ==
      if SameLarge(v, s) then Uncached(Walk(w, frame, level, v)) else Walk(w, frame, level, v)
    decreases level
  {
    var x := Entry(w, frame, Index(v, level));
    if level == 1 {
      assert frame == pt <==> SameLarge(v, s);
    } else {
      assert frame != pt;
      assert Entry(w', frame, Index(v, level)) == x;
      if Leads(x, nodes[frame]) {
        TableMarkedWalk(w, w', nodes, root, x.address, level - 1, pt, s, v);
      }
    }
  }

  predicate LeadsTo(e: Pte, pt: nat) {
    P in e.bits && LARGE !in e.bits && e.address == pt
  }

  lemma TableMarkedRegion(w: Words, w': Words, nodes: map<nat, Node>, root: nat, pd: nat, pt: nat, s: Vpn)
    requires Tree(w, nodes, root, Kernel) && Reaches(w, root, s, pd)
    requires pt in nodes && nodes[pt] == Leaf(s.i4, s.i3, s.i2) && LeadsTo(Entry(w, pd, s.i2), pt)
    requires TableMarked(w, w', pt, 512)
    ensures Tree(w', nodes, root, Kernel) && RegionMarked(w, w', root, s)
  {
    forall v: Vpn | v.i1 < 512
      ensures Resolve(w', root, v) == if SameLarge(v, s) then Uncached(Resolve(w, root, v)) else Resolve(w, root, v)
    {
      TableMarkedWalk(w, w', nodes, root, root, 4, pt, s, v);
    }
    forall f, i: nat | f in nodes && Leads(Entry(w', f, i), nodes[f])
      ensures Entry(w', f, i).address in nodes && nodes[Entry(w', f, i).address] == Child(nodes[f], i)
    {
      assert f != pt && Entry(w', f, i) == Entry(w, f, i);
    }
  }

  /** Regions `first` to `end` (2 MiB each, end excluded) are uncached, all else is as before. */
  ghost predicate MarkedTo(w: Words, w': Words, root: nat, first: nat, end: nat) {
    forall va: nat :: va < VIRTUAL_END ==>
      Resolve(w', root, Split(va)) ==
        if first <= va / 0x20_0000 < end then Uncached(Resolve(w, root, Split(va))) else Resolve(w, root, Split(va))
  }

  lemma MarkedNothing(w: Words, root: nat, first: nat)
    ensures MarkedTo(w, w, root, first, first) && SameTargets(w, w, root)
  {}

  lemma MarkedStep(w: Words, w1: Words, w2: Words, root: nat, first: nat, region: nat)
    requires MarkedTo(w, w1, root, first, region) && first <= region < 0x800_0000
    requires RegionMarked(w1, w2, root, Split(region * 0x20_0000))
    ensures MarkedTo(w, w2, root, first, region + 1)
  {
    forall va: nat | va < VIRTUAL_END
      ensures Resolve(w2, root, Split(va)) ==
        if first <= va / 0x20_0000 < region + 1 then Uncached(Resolve(w, root, Split(va)))
        else Resolve(w, root, Split(va))
    {
      PageTables.SplitLarge(va, region * 0x20_0000);
      assert Split(va).i1 < 512;
    }
  }

  /** A directory entry is present exactly in the regions below the limit. */
  lemma RegionPresent(w: Words, w': Words, root: nat, region: nat, limit: nat)
    requires PresentTo(w, root, limit) && SameDepth(w, w', root) && region < 0x800_0000
    ensures Present(w', root, Split(region * 0x20_0000)) <==> region * 0x20_0000 < limit
  {
    assert region * 0x20_0000 / 0x20_0000 == region;
    assert Depth(w', root, Split(region * 0x20_0000)) == Depth(w, root, Split(region * 0x20_0000));
  }

  /** Every mapped page of the regions is uncached already. */
  ghost predicate AlreadyMarked(w: Words, root: nat, first: nat, end: nat) {
    forall va: nat :: va < VIRTUAL_END && first <= va / 0x20_0000 < end ==>
      Uncached(Resolve(w, root, Split(va))) == Resolve(w, root, Split(va))
  }

  /** No translation of a 48-bit address differs. */
  ghost predicate SameAddresses(w: Words, w': Words, root: nat) {
    forall va: nat :: va < VIRTUAL_END ==> Resolve(w', root, Split(va)) == Resolve(w, root, Split(va))
  }

  /** Marking changes a translation unless the marks are there already. */
  lemma MarksNew(w: Words, w': Words, root: nat, first: nat, end: nat)
    requires MarkedTo(w, w', root, first, end)
    ensures SameAddresses(w, w', root) <==> AlreadyMarked(w, root, first, end)
  {
    if AlreadyMarked(w, root, first, end) {
      forall va: nat | va < VIRTUAL_END ensures Resolve(w', root, Split(va)) == Resolve(w, root, Split(va)) {}
    }
    if SameAddresses(w, w', root) {
      forall va: nat | va < VIRTUAL_END && first <= va / 0x20_0000 < end
        ensures Uncached(Resolve(w, root, Split(va))) == Resolve(w, root, Split(va))
      {
        assert Resolve(w', root, Split(va)) == Resolve(w, root, Split(va));
      }
    }
  }

  /** The range test of paging_mark_mmio, with the sum in 64 bits. */
  predicate PassesTest(physical: nat, size: nat, mappedBytes: nat) {
    size != 0 && physical < mappedBytes && size - 1 <= U64 - 1 - physical && (physical + size) % U64 <= mappedBytes
  }

  /** A range that starts below the limit and ends at 2^64, where the sum is 0. */
  predicate WrapsAround(physical: nat, size: nat, mappedBytes: nat) {
    physical < mappedBytes && physical + size == U64
  }

  /** The test passes the ranges below the limit, and those that end at 2^64. */
  lemma RangeTest(physical: nat, size: nat, mappedBytes: nat)
    requires physical < U64 && size < U64 && mappedBytes <= 0x8000_0000_0000
    ensures PassesTest(physical, size, mappedBytes) <==>
      (0 < size && physical + size <= mappedBytes) || (0 < size && WrapsAround(physical, size, mappedBytes))
  {
    if physical + size < U64 { assert (physical + size) % U64 == physical + size; }
  }

  /** The last 2 MiB of a map of 4 MiB, with a size up to 2^64: the test passes although the range is too long. */
  lemma RangeTestWraps()
    ensures PassesTest(0x20_0000, U64 - 0x20_0000, 0x40_0000) && 0x20_0000 + (U64 - 0x20_0000) > 0x40_0000
    ensures WrapsAround(0x20_0000, U64 - 0x20_0000, 0x40_0000)
  {}

  class KernelSpace {
    const mem: Memory
    var root: nat
    var mappedBytes: nat
    var tablePages: nat
    var guard: nat
    var nx: bool
    ghost var nodes: map<nat, Node>

    constructor (mem: Memory)
      ensures this.mem == mem && root == 0 && nodes == map[]
    {
      this.mem := mem;
      root, mappedBytes, tablePages, guard, nx, nodes := 0, 0, 0, 0, false, map[];
    }

    /** The tables form a tree of held frames under the root. */
    ghost predicate Valid()
      reads this, mem, mem.pmm, mem.pmm.usable, mem.pmm.used
    {
      && mem.Valid() && InUse(nodes.Keys, mem.pmm.managed, mem.pmm.Free())
      && Tree(mem.words, nodes, root, Kernel) && NoUser(mem.words, root)
    }

    ghost function Map(v: Vpn): Option<Mapping>
      reads this, mem
    {
      Resolve(mem.words, root, v)
    }

    /** The pages that are free. */
    ghost function FreeCount(): nat
      reads mem.pmm, mem.pmm.usable, mem.pmm.used
      requires mem.Valid()
    {
      |mem.pmm.Free()|
    }

    /** Word `i` of table `f` is the next one on the way to `s` above the page directory. */
    ghost predicate Above(f: nat, i: nat, s: Vpn)
      reads this, mem
    {
      && f in nodes
      && ((f == root && i == s.i4)
          || (&& nodes[f] == Mid(s.i4) && i == s.i3
              && P in Entry(mem.words, root, s.i4).bits && Entry(mem.words, root, s.i4).address == f))
    }

    /** A new table under the absent word `i` of table `f`; 0 when no page is free. */
    method Hang(f: nat, i: nat, ghost s: Vpn) returns (t: nat)
      requires Valid() && Above(f, i, s) && P !in Entry(mem.words, f, i).bits
      modifies this`nodes, this`tablePages, mem, mem.pmm, mem.pmm.usable, mem.pmm.used
      ensures Valid()
      ensures t == 0 <==> old(FreeCount()) == 0
      ensures t == 0 ==> mem.words == old(mem.words) && nodes == old(nodes) && tablePages == old(tablePages)
      ensures t != 0 ==> t !in old(nodes) && mem.words == Attached(old(mem.words), f, i, t, {P, W})
      ensures t != 0 ==> nodes == old(nodes)[t := Child(old(nodes)[f], i)] && tablePages == old(tablePages) + 1
      ensures FreeCount() == old(FreeCount()) - if t == 0 then 0 else 1
    {
      t := mem.AllocateTable();
      if t == 0 { return; }
      tablePages := tablePages + 1;
      InUseJoin(nodes.Keys, mem.pmm.managed, old(mem.pmm.Free()), t);
      assert nodes[t := Child(nodes[f], i)].Keys == nodes.Keys + {t};
      AttachTree(old(mem.words), nodes, root, Kernel, f, i, t, {P, W});
      AttachSame(old(mem.words), nodes, root, f, i, t);
      nodes := nodes[t := Child(nodes[f], i)];
      mem.words := mem.words[(f, i) := Pte(t, {P, W})];
    }

    /** The table under word `i` of table `f`, allocated and linked if the word is absent. */
    method Descend(f: nat, i: nat, ghost s: Vpn) returns (t: nat)
      requires Valid() && Above(f, i, s)
      modifies this`nodes, this`tablePages, mem, mem.pmm, mem.pmm.usable, mem.pmm.used
      ensures Valid() && SameMap(old(mem.words), mem.words, root)
      ensures t == 0 <==> P !in Entry(old(mem.words), f, i).bits && old(FreeCount()) == 0
      ensures t == 0 ==> mem.words == old(mem.words) && tablePages == old(tablePages)
      ensures f != root ==> Entry(mem.words, root, s.i4) == Entry(old(mem.words), root, s.i4)
      ensures t != 0 ==> t in nodes && nodes[t] == Child(old(nodes)[f], i)
      ensures t != 0 ==> P in Entry(mem.words, f, i).bits && Entry(mem.words, f, i).address == t
      ensures t != 0 ==> Deepened(old(mem.words), mem.words, root, s, if f == root then 1 else 2)
      ensures tablePages + FreeCount() == old(tablePages + FreeCount())
      ensures t != 0 ==> tablePages == old(tablePages) + if P in Entry(old(mem.words), f, i).bits then 0 else 1
      ensures forall g :: g in old(nodes) ==> g in nodes && nodes[g] == old(nodes)[g]
    {
      if P !in Entry(mem.words, f, i).bits {
        t := Hang(f, i, s);
        if t == 0 { return; }
        AttachSame(old(mem.words), old(nodes), root, f, i, t);
        if f == root {
          AttachTop(old(mem.words), old(nodes), root, s, t);
        } else {
          AttachMiddle(old(mem.words), old(nodes), root, f, s, t);
        }
      } else {
        Deep(mem.words, root, s, if f == root then 1 else 2);
      }
      t := Entry(mem.words, f, i).address;
    }

    /** The page directory on the walk to `s`, with the tables above it allocated as needed. */
    method Directory(s: Vpn) returns (pd: nat)
      requires Valid()
      modifies this`nodes, this`tablePages, mem, mem.pmm, mem.pmm.usable, mem.pmm.used
      ensures Valid() && SameMap(old(mem.words), mem.words, root)
      ensures pd == 0 <==> old(FreeCount()) < Missing(Depth(old(mem.words), root, s))
      ensures tablePages + FreeCount() == old(tablePages + FreeCount())
      ensures pd == 0 ==> FreeCount() == 0
      ensures pd != 0 ==> tablePages == old(tablePages) + Missing(Depth(old(mem.words), root, s))
      ensures pd != 0 ==> Opened(old(mem.words), mem.words, root, s)
      ensures pd != 0 ==> pd in nodes && nodes[pd] == Low(s.i4, s.i3) && Reaches(mem.words, root, s, pd)
    {
      var pdpt := Descend(root, s.i4, s);
      if pdpt == 0 { return 0; }
      ghost var between := mem.words;
      pd := Descend(pdpt, s.i3, s);
      SameTrans(old(mem.words), between, mem.words, root);
      if pd != 0 { OpenedTwice(old(mem.words), between, mem.words, root, s); }
    }

    /**
    Maps the 2 MiB at `physical` to themselves; a refusal changes no translation. It is refused exactly when
    fewer pages are free than tables are missing on the way.
    */
    method MapLargePage(physical: nat, flags: set<nat>) returns (ok: bool)
      requires Valid() && physical % LARGE_PAGE == 0 && physical < 0x1_0000_0000_0000
      modifies this`nodes, this`tablePages, mem, mem.pmm, mem.pmm.usable, mem.pmm.used
      ensures Valid()
      ensures ok <==> old(FreeCount()) >= Missing(Depth(old(mem.words), root, Split(physical)))
      ensures !ok ==> FreeCount() == 0 && SameMap(old(mem.words), mem.words, root)
      ensures ok ==> LargeMapped(old(mem.words), mem.words, root, Split(physical), Pte(physical, flags + {P, W, LARGE}))
      ensures ok ==> Grown(old(mem.words), mem.words, root, Split(physical))
      ensures tablePages + FreeCount() == old(tablePages + FreeCount())
      ensures ok ==> tablePages == old(tablePages) + Missing(Depth(old(mem.words), root, Split(physical)))
    {
      var s := Split(physical);
      var pd := Directory(s);
      if pd == 0 { return false; }
      var e := Pte(physical, flags + {P, W, LARGE});
      LargeLeaf(mem.words, nodes, root, pd, s, e);
      LargeTrans(old(mem.words), mem.words, mem.words[(pd, s.i2) := e], root, s, e);
      BelowRoot(mem.words, root, pd, s.i2, e);
      PutLarge(old(mem.words), mem.words, nodes, root, pd, s, e);
      mem.words := mem.words[(pd, s.i2) := e];
      return true;
    }

    /**
    Takes one 4 KiB page out of the mapping, splitting its large leaf if it lies in one. It is refused exactly
    when no directory entry is present or a table for the split is needed and no page is free.
    */
    method Unmap4kPage(physical: nat) returns (ok: bool)
      requires Valid()
      modifies this`nodes, this`tablePages, mem, mem.pmm, mem.pmm.usable, mem.pmm.used
      ensures Valid()
      ensures ok <==> var d := Depth(old(mem.words), root, Split(physical)); d == 3 || (d == 4 && old(FreeCount()) > 0)
      ensures !ok ==> mem.words == old(mem.words)
      ensures ok ==> Holed(old(mem.words), mem.words, root, Split(physical))
      ensures ok ==> SplitOnly(old(mem.words), mem.words, root, Split(physical))
      ensures tablePages + FreeCount() == old(tablePages + FreeCount())
      ensures ok ==> tablePages == old(tablePages) + if Depth(old(mem.words), root, Split(physical)) == 4 then 1 else 0
    {
      var s := Split(physical);
      var e4 := Entry(mem.words, root, s.i4);
      if P !in e4.bits { return false; }
      var e3 := Entry(mem.words, e4.address, s.i3);
      if P !in e3.bits { return false; }
      var pd := e3.address;
      var e2 := Entry(mem.words, pd, s.i2);
      if P !in e2.bits { return false; }
      var pt := e2.address;
      if LARGE in e2.bits {
        pt := SplitLarge(pd, s);
        if pt == 0 { return false; }
      }
      ClearPage(pd, pt, s, old(mem.words));
      return true;
    }

    method ClearPage(pd: nat, pt: nat, s: Vpn, ghost w: Words)
      requires Valid() && pd in nodes && nodes[pd] == Low(s.i4, s.i3) && Reaches(mem.words, root, s, pd)
      requires pt in nodes && nodes[pt] == Leaf(s.i4, s.i3, s.i2) && LeadsTo(Entry(mem.words, pd, s.i2), pt)
      requires SameMap(w, mem.words, root) && SplitOnly(w, mem.words, root, s)
      modifies mem`words
      ensures Valid() && Holed(w, mem.words, root, s) && SplitOnly(w, mem.words, root, s)
    {
      ClearLeaf(mem.words, nodes, root, pd, pt, s);
      HoleTrans(w, mem.words, mem.words[(pt, s.i1) := ABSENT], root, s);
      BelowRoot(mem.words, root, pt, s.i1, ABSENT);
      ClearDepth(w, mem.words, nodes, root, pt, s);
      mem.words := mem.words[(pt, s.i1) := ABSENT];
    }

    /** Replaces the large leaf of `s` by a table of 512 small ones with the same targets and attributes. */
    method SplitLarge(pd: nat, s: Vpn) returns (pt: nat)
      requires Valid() && pd in nodes && nodes[pd] == Low(s.i4, s.i3) && Reaches(mem.words, root, s, pd)
      requires P in Entry(mem.words, pd, s.i2).bits && LARGE in Entry(mem.words, pd, s.i2).bits
      modifies this`nodes, this`tablePages, mem, mem.pmm, mem.pmm.usable, mem.pmm.used
      ensures Valid() && SameMap(old(mem.words), mem.words, root)
      ensures pt == 0 <==> old(FreeCount()) == 0
      ensures pt == 0 ==> mem.words == old(mem.words)
      ensures pt != 0 ==> SplitOnly(old(mem.words), mem.words, root, s)
      ensures tablePages + FreeCount() == old(tablePages + FreeCount())
      ensures tablePages == old(tablePages) + if pt == 0 then 0 else 1
      ensures pt != 0 ==> pt in nodes && nodes[pt] == Leaf(s.i4, s.i3, s.i2)
      ensures pt != 0 ==> Reaches(mem.words, root, s, pd) && Entry(mem.words, pd, s.i2) == Pte(pt, {P, W})
    {
      var large := Entry(mem.words, pd, s.i2);
      var base := large.address / LARGE_PAGE * LARGE_PAGE;
      var bits := large.bits - {LARGE};
      pt := mem.AllocateTable();
      if pt == 0 { return; }
      tablePages := tablePages + 1;
      InUseJoin(nodes.Keys, mem.pmm.managed, old(mem.pmm.Free()), pt);
      assert nodes[pt := Leaf(s.i4, s.i3, s.i2)].Keys == nodes.Keys + {pt};
      for i := 0 to 512
        invariant mem.Valid() && mem.pmm.Free() == old(mem.pmm.Free()) - {pt / 4096}
        invariant mem.pmm.managed == old(mem.pmm.managed)
        invariant nodes == old(nodes) && root == old(root) && tablePages == old(tablePages) + 1
        invariant Filled(old(mem.words), mem.words, pt, base, bits, i)
      {
        FilledStep(old(mem.words), mem.words, pt, base, bits, i);
        mem.words := mem.words[(pt, i) := Pte(base + i * 4096, bits)];
      }
      SplitKeeps(old(mem.words), mem.words, nodes, root, pd, s, pt);
      SplitDepth(old(mem.words), mem.words, nodes, root, pd, s, pt);
      nodes := nodes[pt := Leaf(s.i4, s.i3, s.i2)];
      mem.words := mem.words[(pd, s.i2) := Pte(pt, {P, W})];
      assert forall i: nat :: Entry(mem.words, root, i) == Entry(old(mem.words), root, i);
    }

    /** The bytes paging_init maps, or 0 when they do not fit. */
    static function MappedBytes(layout: Layout): (m: nat)
      requires layout.Fits()
      ensures m % 0x20_0000 == 0 && m <= 0x8000_0000_0000
      ensures m > 0 && layout.GuardOk() ==> layout.stackGuard.base < m
    {
      var maximum := MaxOf(layout.Ends(), layout.pmmPages * 4096 % U64);
      assert layout.Ends()[2] == RangeEnd(layout.kernelStack);
      if maximum == 0 || maximum > 0x8000_0000_0000 then 0
      else (maximum + 0x20_0000 - 1) / 0x20_0000 * 0x20_0000
    }

    /** The largest end, before it is rounded up. */
    static function Maximum(layout: Layout): nat
      requires layout.Fits()
    {
      MaxOf(layout.Ends(), layout.pmmPages * 4096 % U64)
    }

    static lemma MaximumHolds(layout: Layout)
      requires layout.Fits() && MappedBytes(layout) > 0
      ensures forall r :: r in layout.Ranges() ==> r.base + r.size <= Maximum(layout)
      ensures (layout.localApic + 4096) % U64 <= Maximum(layout) && (layout.ioApic + 4096) % U64 <= Maximum(layout)
      ensures 4096 * layout.pmmPages % U64 <= Maximum(layout) <= MappedBytes(layout) <= 0x8000_0000_0000
    {
      var rs, ends := layout.Ranges(), layout.Ends();
      assert ends[6] <= Maximum(layout) && ends[7] <= Maximum(layout);
      forall i | 0 <= i < 6 ensures rs[i].base + rs[i].size <= Maximum(layout) {
        assert ends[i] == RangeEnd(rs[i]) <= Maximum(layout) < U64 - 1;
      }
    }

    static lemma MaximumIs(layout: Layout)
      requires layout.Fits() && layout.NoWrap() && MappedBytes(layout) > 0
      ensures layout.Ending(Maximum(layout))
    {
      if Maximum(layout) in layout.Ends() {
        var i: nat :| i < 8 && Maximum(layout) == layout.Ends()[i];
        layout.EndOf(i);
      }
    }

    /**
    The mapping holds every listed byte exactly when none of the three unguarded sums wraps around, and it is
    then the least such mapping exactly when no empty range lies beyond the listed bytes.
    */
    static lemma MappedExactly(layout: Layout)
      requires layout.Fits() && MappedBytes(layout) > 0
      ensures layout.AllBelow(MappedBytes(layout)) <==> layout.NoWrap()
      ensures layout.NoWrap() ==>
        (layout.LeastCover(MappedBytes(layout)) <==> forall r :: r in layout.Ranges() ==> !layout.Stray(r))
    {
      MaximumHolds(layout);
      layout.HoldsExactly(MappedBytes(layout));
      if layout.NoWrap() {
        if r :| r in layout.Ranges() && layout.Stray(r) {
          layout.StrayWaste(r, MappedBytes(layout));
        } else {
          MappedLeast(layout);
        }
      }
    }

    static lemma LastByte(layout: Layout, maximum: nat) returns (x: nat)
      requires layout.NoWrap() && 0 < maximum && forall r :: r in layout.Ranges() ==> !layout.Stray(r)
      requires layout.Ending(maximum)
      ensures layout.Listed(x) && (maximum - 1) / 0x20_0000 <= x / 0x20_0000
    {
      x := maximum - 1;
      if r :| r in layout.Ranges() && maximum == r.base + r.size {
        if r.size == 0 {
          x :| layout.Listed(x) && x / 0x20_0000 >= (r.base - 1) / 0x20_0000;
        } else {
          layout.RangeListed(r, x);
        }
      }
    }

    static lemma WholeRegions(maximum: nat, x: nat, n: nat)
      requires 0 < maximum && (maximum - 1) / 0x20_0000 <= x / 0x20_0000 && x < n && n % 0x20_0000 == 0
      ensures (maximum + 0x1F_FFFF) / 0x20_0000 * 0x20_0000 <= n
    {
      assert x / 0x20_0000 < n / 0x20_0000;
    }

    /** Without an empty range beyond them, some listed byte stands in the last region. */
    static lemma MappedLeast(layout: Layout)
      requires layout.Fits() && MappedBytes(layout) > 0 && layout.NoWrap() && layout.AllBelow(MappedBytes(layout))
      requires forall r :: r in layout.Ranges() ==> !layout.Stray(r)
      ensures layout.LeastCover(MappedBytes(layout))
    {
      MaximumIs(layout);
      var x := LastByte(layout, Maximum(layout));
      forall n: nat | n % 0x20_0000 == 0 && layout.AllBelow(n) ensures MappedBytes(layout) <= n {
        assert x < n;
        WholeRegions(Maximum(layout), x, n);
      }
    }

    /** The layouts whose bytes are too high to be mapped. */
    static lemma TooHigh(layout: Layout)
      requires layout.Fits() && layout.GuardOk()
      ensures MappedBytes(layout) == 0 <==>
        || (exists r :: r in layout.Ranges() && r.base + r.size > 0x8000_0000_0000)
        || (layout.localApic + 4096) % U64 > 0x8000_0000_0000 || (layout.ioApic + 4096) % U64 > 0x8000_0000_0000
        || 4096 * layout.pmmPages % U64 > 0x8000_0000_0000
    {
      var rs, ends := layout.Ranges(), layout.Ends();
      assert ends[2] == RangeEnd(layout.kernelStack) > 0;
      if MappedBytes(layout) == 0 {
        if Maximum(layout) in ends {
          var i: nat :| i < 8 && Maximum(layout) == ends[i];
          if i < 6 { assert rs[i] in rs && ends[i] == RangeEnd(rs[i]); }
        }
      } else {
        MaximumHolds(layout);
      }
    }

    /** A small machine, but for its framebuffer and its local APIC. */
    static function Machine(framebuffer: Range, localApic: nat): Layout {
      Layout(Range(0x10_0000, 0x10_0000), Range(0, 4096), Range(0x20_0000, 0x1_0000), Range(0x20_0000, 4096),
             Range(0x30_0000, 4096), Range(0x40_0000, 4096), framebuffer, 0x1000, localApic, 0xFEC0_0000, [])
    }

    /** The last page of the 64-bit space as local APIC is accepted and not mapped. */
    static lemma WrapExample()
      ensures
        var layout := Machine(Range(0x8000_0000, 4096), 0xFFFF_FFFF_FFFF_F000);
        layout.Fits() && layout.GuardOk() && MappedBytes(layout) > 0 && !layout.AllBelow(MappedBytes(layout))
    {
      var layout := Machine(Range(0x8000_0000, 4096), 0xFFFF_FFFF_FFFF_F000);
      layout.GuardExactly();
      MachinePositive(layout.framebuffer, layout.localApic);
      MappedExactly(layout);
    }

    /** An absent framebuffer with a high base makes the mapping larger than any byte needs. */
    static lemma EmptyExample()
      ensures
        var layout := Machine(Range(0x4000_0000_0000, 0), 0xFEE0_0000);
        layout.Fits() && layout.GuardOk() && MappedBytes(layout) > 0 && !layout.LeastCover(MappedBytes(layout))
    {
      var layout := Machine(Range(0x4000_0000_0000, 0), 0xFEE0_0000);
      layout.GuardExactly();
      MachinePositive(layout.framebuffer, layout.localApic);
      MappedExactly(layout);
      assert layout.framebuffer == layout.Ranges()[5];
      assert layout.Stray(layout.framebuffer);
    }

    static lemma MachinePositive(framebuffer: Range, localApic: nat)
      requires framebuffer.base <= 0x4000_0000_0000 && framebuffer.size <= 4096 && localApic < U64
      requires (localApic + 4096) % U64 <= 0x4000_0000_0000
      ensures MappedBytes(Machine(framebuffer, localApic)) > 0
    {}

    /**
    On success every address below mappedBytes translates to itself except the absent guard page. It succeeds
    exactly when the layout is proper and the tables fit into the free pages.
    */
    method Init(layout: Layout, cpuHasNx: bool) returns (ok: bool)
      requires mem.Valid() && layout.Fits()
      modifies this, mem, mem.pmm, mem.pmm.usable, mem.pmm.used
      ensures mem.Valid()
      ensures ok <==>
        layout.GuardOk() && MappedBytes(layout) > 0 && old(FreeCount()) >= TablesFor(MappedBytes(layout)) + 1
      ensures ok ==> Valid() && mappedBytes == MappedBytes(layout) && tablePages == TablesFor(mappedBytes) + 1
      ensures ok ==> guard == layout.stackGuard.base && guard < mappedBytes && nx == cpuHasNx
      ensures ok ==> IdentityBut(layout, nx, mem.words, root, mappedBytes, guard) && Covers()
      ensures ok ==> RightBut(layout, nx, mem.words, root, mappedBytes, guard)
      ensures ok ==> (layout.AllBelow(mappedBytes) <==> layout.NoWrap())
      ensures ok && layout.NoWrap() ==>
        (layout.LeastCover(mappedBytes) <==> forall r :: r in layout.Ranges() ==> !layout.Stray(r))
    {
      if !layout.GuardOk() { return false; }
      var maximum := MappedBytes(layout);
      if maximum == 0 { return false; }
      tablePages := 0;
      nx := cpuHasNx;
      ok := Build(layout, maximum, layout.stackGuard.base);
      if !ok { return; }
      mappedBytes, guard := maximum, layout.stackGuard.base;
      IdentityRight(layout, nx, mem.words, root, mappedBytes, guard);
      MappedExactly(layout);
    }

    /** The identity map and the hole in it. */
    method Build(layout: Layout, maximum: nat, hole: nat) returns (ok: bool)
      requires mem.Valid() && maximum % 0x20_0000 == 0 && hole < maximum <= 0x8000_0000_0000 && tablePages == 0
      modifies this`root, this`nodes, this`tablePages, mem, mem.pmm, mem.pmm.usable, mem.pmm.used
      ensures mem.Valid() && (ok <==> old(FreeCount()) >= TablesFor(maximum) + 1)
      ensures ok ==> Valid() && tablePages == TablesFor(maximum) + 1
      ensures ok ==> IdentityBut(layout, nx, mem.words, root, maximum, hole) && PresentTo(mem.words, root, maximum)
    {
      ok := MapAll(layout, maximum);
      if !ok { return; }
      ok := PunchHole(layout, maximum, hole);
    }

    /** A fresh root and one large leaf for every 2 MiB below `maximum`. */
    method MapAll(layout: Layout, maximum: nat) returns (ok: bool)
      requires mem.Valid() && maximum % 0x20_0000 == 0 && maximum <= 0x8000_0000_0000 && tablePages == 0
      modifies this`root, this`nodes, this`tablePages, mem, mem.pmm, mem.pmm.usable, mem.pmm.used
      ensures mem.Valid() && (ok <==> old(FreeCount()) >= TablesFor(maximum))
      ensures ok ==> Valid() && IdentityTo(layout, nx, mem.words, root, maximum) && ReachTo(mem.words, root, maximum)
      ensures ok ==> tablePages == TablesFor(maximum) && tablePages + FreeCount() == old(FreeCount())
    {
      ok := NewRoot(layout);
      MoreTables(0, maximum);
      if !ok { return; }
      var address := 0;
      while address < maximum
        invariant Valid() && address % 0x20_0000 == 0 && address <= maximum
        invariant IdentityTo(layout, nx, mem.words, root, address) && ReachTo(mem.words, root, address)
        invariant tablePages == TablesFor(address) && tablePages + FreeCount() == old(FreeCount())
      {
        NextRegion(address, maximum);
        MoreTables(address + 0x20_0000, maximum);
        ok := MapStep(layout, address);
        if !ok { return; }
        address := address + 0x20_0000;
      }
      return true;
    }

    method NewRoot(layout: Layout) returns (ok: bool)
      requires mem.Valid() && tablePages == 0
      modifies this`root, this`nodes, this`tablePages, mem, mem.pmm, mem.pmm.usable, mem.pmm.used
      ensures mem.Valid() && (ok <==> old(FreeCount()) >= 1)
      ensures ok ==> Valid() && IdentityTo(layout, nx, mem.words, root, 0) && ReachTo(mem.words, root, 0)
      ensures ok ==> tablePages == 1 && FreeCount() == old(FreeCount()) - 1
    {
      root := mem.AllocateTable();
      if root == 0 { return false; }
      tablePages := tablePages + 1;
      nodes := map[root := Root];
      assert nodes.Keys == {root};
      return true;
    }

    method MapStep(layout: Layout, address: nat) returns (ok: bool)
      requires Valid() && address % 0x20_0000 == 0 && address + 0x20_0000 <= 0x8000_0000_0000
      requires IdentityTo(layout, nx, mem.words, root, address) && ReachTo(mem.words, root, address)
      requires tablePages == TablesFor(address)
      modifies this`nodes, this`tablePages, mem, mem.pmm, mem.pmm.usable, mem.pmm.used
      ensures Valid() && tablePages + FreeCount() == old(tablePages + FreeCount())
      ensures ok <==> old(tablePages + FreeCount()) >= TablesFor(address + 0x20_0000)
      ensures ok ==> IdentityTo(layout, nx, mem.words, root, address + 0x20_0000)
      ensures ok ==> ReachTo(mem.words, root, address + 0x20_0000) && tablePages == TablesFor(address + 0x20_0000)
    {
      assert Depth(mem.words, root, Split(address)) == Reach(address, address);
      TablesStep(address);
      ok := MapLargePage(address, layout.Flags(address, nx));
      if ok {
        IdentityStep(layout, nx, old(mem.words), mem.words, root, address);
        ReachGrown(old(mem.words), mem.words, root, address);
      }
    }

    method PunchHole(layout: Layout, limit: nat, hole: nat) returns (ok: bool)
      requires Valid() && IdentityTo(layout, nx, mem.words, root, limit) && ReachTo(mem.words, root, limit)
      requires hole < limit <= VIRTUAL_END
      modifies this`nodes, this`tablePages, mem, mem.pmm, mem.pmm.usable, mem.pmm.used
      ensures Valid() && (ok <==> old(FreeCount()) >= 1)
      ensures ok ==> IdentityBut(layout, nx, mem.words, root, limit, hole) && PresentTo(mem.words, root, limit)
      ensures ok ==> tablePages == old(tablePages) + 1
    {
      InRegion(hole, limit);
      assert Depth(mem.words, root, Split(hole)) == Reach(hole, limit) == 4;
      ok := Unmap4kPage(hole);
      if ok {
        IdentityHole(layout, nx, old(mem.words), mem.words, root, limit, hole);
        HolePresent(old(mem.words), mem.words, root, limit, hole);
      }
    }

    /** Sets the cache bits of one 2 MiB region; refused, without a change, if no directory entry is present. */
    method MarkRegion(address: nat) returns (ok: bool)
      requires Valid()
      modifies mem`words
      ensures Valid()
      ensures ok <==> Present(old(mem.words), root, Split(address))
      ensures ok ==> RegionMarked(old(mem.words), mem.words, root, Split(address))
      ensures SameDepth(old(mem.words), mem.words, root)
      ensures !ok ==> mem.words == old(mem.words)
    {
      var s := Split(address);
      var e4 := Entry(mem.words, root, s.i4);
      if P !in e4.bits { return false; }
      var e3 := Entry(mem.words, e4.address, s.i3);
      if P !in e3.bits { return false; }
      var pd := e3.address;
      var e2 := Entry(mem.words, pd, s.i2);
      if P !in e2.bits { return false; }
      assert nodes[pd] == Low(s.i4, s.i3) && pd != root;
      if LARGE in e2.bits {
        MarkLargeLeaf(mem.words, nodes, root, pd, s);
        MarkLargeDepth(mem.words, nodes, root, pd, s);
        BelowRoot(mem.words, root, pd, s.i2, e2.(bits := e2.bits + {PCD, PWT}));
        mem.words := mem.words[(pd, s.i2) := e2.(bits := e2.bits + {PCD, PWT})];
      } else {
        MarkTable(e2.address);
        assert forall i: nat :: Entry(mem.words, root, i) == Entry(old(mem.words), root, i);
        TableMarkedRegion(old(mem.words), mem.words, nodes, root, pd, e2.address, s);
        OutsideTree(old(mem.words), mem.words, nodes, root);
      }
      return true;
    }

    method MarkTable(pt: nat)
      modifies mem`words
      ensures TableMarked(old(mem.words), mem.words, pt, 512)
    {
      for i := 0 to 512
        invariant TableMarked(old(mem.words), mem.words, pt, i)
      {
        TableMarkedStep(old(mem.words), mem.words, pt, i);
        var e := Entry(mem.words, pt, i);
        if P in e.bits {
          mem.words := mem.words[(pt, i) := e.(bits := e.bits + {PCD, PWT})];
        }
      }
    }

    /** A directory entry is present exactly in the regions below mappedBytes. */
    ghost predicate Covers()
      reads this, mem
    {
      mappedBytes % 0x20_0000 == 0 && mappedBytes <= 0x8000_0000_0000 && PresentTo(mem.words, root, mappedBytes)
    }

    /**
    Marks device memory uncached in steps of 2 MiB. It succeeds exactly for a range below mappedBytes and then
    marks its regions. A range from below mappedBytes to 2^64 slips past the range test: it is refused too, but
    only after everything from its start to mappedBytes was marked, so a refusal changes a translation exactly
    for such a range with a page that was not yet uncached. No call ever changes which pages are mapped and
    where, so an absent guard stays absent.
    */
    method MarkMmio(physical: nat, size: nat) returns (ok: bool)
      requires Valid() && Covers() && physical < U64 && size < U64
      modifies mem`words
      ensures Valid() && Covers() && SameTargets(old(mem.words), mem.words, root)
      ensures ok <==> 0 < size && physical + size <= mappedBytes
      ensures ok ==>
        MarkedTo(old(mem.words), mem.words, root, physical / 0x20_0000, (physical + size - 1) / 0x20_0000 + 1)
      ensures !ok && !WrapsAround(physical, size, mappedBytes) ==> mem.words == old(mem.words)
      ensures WrapsAround(physical, size, mappedBytes) ==>
        MarkedTo(old(mem.words), mem.words, root, physical / 0x20_0000, mappedBytes / 0x20_0000)
      ensures !ok ==> (SameAddresses(old(mem.words), mem.words, root) <==>
        !WrapsAround(physical, size, mappedBytes) ||
        AlreadyMarked(old(mem.words), root, physical / 0x20_0000, mappedBytes / 0x20_0000))
    {
      RangeTest(physical, size, mappedBytes);
      if root == 0 || !PassesTest(physical, size, mappedBytes) { return false; }
      ghost var first, end := physical / 0x20_0000, mappedBytes / 0x20_0000;
      ok := MarkRegions(physical / 0x20_0000, (physical + size - 1) / 0x20_0000);
      if WrapsAround(physical, size, mappedBytes) { MarksNew(old(mem.words), mem.words, root, first, end); }
    }

    /** The loop of paging_mark_mmio: it stops behind the last region or at the first that is absent. */
    method MarkRegions(first: nat, last: nat) returns (ok: bool)
      requires Valid() && Covers() && first <= last && first < mappedBytes / 0x20_0000
      modifies mem`words
      ensures Valid() && Covers() && SameTargets(old(mem.words), mem.words, root)
      ensures ok <==> last < mappedBytes / 0x20_0000
      ensures
        var end := if ok then last + 1 else mappedBytes / 0x20_0000;
        MarkedTo(old(mem.words), mem.words, root, first, end)
    {
      ghost var end := mappedBytes / 0x20_0000;
      var region := first;
      MarkedNothing(mem.words, root, region);
      while true
        invariant Valid() && first <= region <= last && region <= end
        invariant SameTargets(old(mem.words), mem.words, root) && SameDepth(old(mem.words), mem.words, root)
        invariant MarkedTo(old(mem.words), mem.words, root, first, region)
        decreases last - region
      {
        RegionPresent(old(mem.words), mem.words, root, region, mappedBytes);
        var done := MarkRegionOnce(region, old(mem.words), first);
        if !done { return false; }
        if region == last { return true; }
        region := region + 1;
      }
    }

    method MarkRegionOnce(region: nat, ghost w: Words, ghost first: nat) returns (ok: bool)
      requires Valid() && SameTargets(w, mem.words, root) && SameDepth(w, mem.words, root)
      requires first <= region < 0x800_0000 && MarkedTo(w, mem.words, root, first, region)
      modifies mem`words
      ensures Valid() && SameTargets(w, mem.words, root) && SameDepth(w, mem.words, root)
      ensures ok <==> Present(old(mem.words), root, Split(region * 0x20_0000))
      ensures MarkedTo(w, mem.words, root, first, if ok then region + 1 else region)
    {
      ok := MarkRegion(region * 0x20_0000);
      SameDepthTrans(w, old(mem.words), mem.words, root);
      if ok {
        TargetsStep(w, old(mem.words), mem.words, root, Split(region * 0x20_0000));
        MarkedStep(w, old(mem.words), mem.words, root, first, region);
      }
    }
  }
}
