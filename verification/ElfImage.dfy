/**
Validation of user ELF images: a loop over the program headers that fills an image record,
against a declarative statement of which images are accepted and what the record then holds.
*/
module ElfImages {
  import opened Common

  const MAX_SEGMENTS: nat := 8
  const MAX_IMAGE_PAGES: nat := 16
  const LOAD: nat := 1
  const GNU_STACK: nat := 0x6474_E551

  // ------------------------------------------------------------ little endian

  function Le(bytes: seq<Byte>, at: nat, n: nat): (r: nat)
    requires at + n <= |bytes|
    decreases n, |bytes|
  {
    if n == 0 then 0 else bytes[at] + 256 * Le(bytes, at + 1, n - 1)
  }

  datatype ProgramHeader = ProgramHeader(
    kind: nat, flags: nat, offset: nat, virtualAddress: nat, physicalAddress: nat,
    fileSize: nat, memorySize: nat, alignment: nat)

  function HeaderCount(bytes: seq<Byte>): nat
    requires |bytes| >= 64
  { Le(bytes, 56, 2) }

  function HeaderOffset(bytes: seq<Byte>): nat
    requires |bytes| >= 64
  { Le(bytes, 32, 8) }

  function EntryPoint(bytes: seq<Byte>): nat
    requires |bytes| >= 64
  { Le(bytes, 24, 8) }

  /** The fixed part of the file: identification, type, machine and header sizes. */
  predicate FileHeaderOk(bytes: seq<Byte>) {
    && |bytes| >= 64
    && bytes[0] == 0x7F && bytes[1] == 'E' as nat && bytes[2] == 'L' as nat && bytes[3] == 'F' as nat
    && bytes[4] == 2 && bytes[5] == 1 && bytes[6] == 1
    && Le(bytes, 16, 2) == 2 && Le(bytes, 18, 2) == 62 && Le(bytes, 20, 4) == 1
    && Le(bytes, 48, 4) == 0 && Le(bytes, 52, 2) == 64 && Le(bytes, 54, 2) == 56
    && 0 < HeaderCount(bytes) <= MAX_SEGMENTS + 1
    && HeaderOffset(bytes) + 56 * HeaderCount(bytes) <= |bytes|
  }

  function HeaderAt(bytes: seq<Byte>, at: nat): ProgramHeader
    requires at + 56 <= |bytes|
  {
    ProgramHeader(Le(bytes, at, 4), Le(bytes, at + 4, 4), Le(bytes, at + 8, 8), Le(bytes, at + 16, 8),
                  Le(bytes, at + 24, 8), Le(bytes, at + 32, 8), Le(bytes, at + 40, 8), Le(bytes, at + 48, 8))
  }

  function Headers(bytes: seq<Byte>, n: nat): (r: seq<ProgramHeader>)
    requires FileHeaderOk(bytes) && n <= HeaderCount(bytes)
    ensures |r| == n && forall i :: 0 <= i < n ==> r[i] == HeaderAt(bytes, HeaderOffset(bytes) + 56 * i)
  {
    if n == 0 then [] else Headers(bytes, n - 1) + [HeaderAt(bytes, HeaderOffset(bytes) + 56 * (n - 1))]
  }

  // ---------------------------------------------------------------- acceptance

  predicate Readable(flags: nat) { flags / 4 % 2 == 1 }
  predicate Writable(flags: nat) { flags / 2 % 2 == 1 }
  predicate Executable(flags: nat) { flags % 2 == 1 }

  predicate StackOk(p: ProgramHeader) {
    && p.flags == 6 && p.offset == 0 && p.virtualAddress == 0 && p.physicalAddress == 0
    && p.fileSize == 0 && p.memorySize == 0
  }

  /** Whole pages covering the memory size, in the 32 bits the loader keeps. */
  function PageCount(p: ProgramHeader): nat { (p.memorySize + 4095) / 4096 % 0x1_0000_0000 }

  predicate LoadOk(p: ProgramHeader, size: nat, userMin: nat, userMax: nat) {
    && p.memorySize != 0 && p.fileSize <= p.memorySize
    && Readable(p.flags) && p.flags < 8 && !(Writable(p.flags) && Executable(p.flags))
    && p.offset % 4096 == 0 && p.virtualAddress % 4096 == 0 && p.alignment == 4096
    && p.offset + p.fileSize <= size && p.offset + p.fileSize < U64
    && p.virtualAddress + p.memorySize < U64
    && userMin <= p.virtualAddress && p.virtualAddress + p.memorySize <= userMax
    && p.memorySize + 4095 < U64 && PageCount(p) != 0
  }

  datatype Segment = Segment(
    fileOffset: nat, fileSize: nat, virtualAddress: nat, memorySize: nat, flags: nat, pageCount: nat)

  datatype Image = Image(entry: nat, totalPages: nat, segments: seq<Segment>)

  function SegmentOf(p: ProgramHeader): Segment {
    Segment(p.offset, p.fileSize, p.virtualAddress, p.memorySize, p.flags, PageCount(p))
  }

  /** The loadable headers, in file order, as segments. */
  function Loads(ps: seq<ProgramHeader>): (r: seq<Segment>)
    ensures |r| <= |ps|
  {
    if ps == [] then []
    else
      var p := ps[|ps| - 1];
      Loads(ps[..|ps| - 1]) + if p.kind == LOAD then [SegmentOf(p)] else []
  }

  /** Every loadable header becomes a segment. */
  lemma {:induction false} LoadsOf(ps: seq<ProgramHeader>, i: nat)
    requires i < |ps| && ps[i].kind == LOAD
    ensures SegmentOf(ps[i]) in Loads(ps)
  {
    if i < |ps| - 1 { LoadsOf(ps[..|ps| - 1], i); }
  }

  /** And every segment comes from one. */
  lemma {:induction false} LoadsFrom(ps: seq<ProgramHeader>, s: Segment) returns (i: nat)
    requires s in Loads(ps)
    ensures i < |ps| && ps[i].kind == LOAD && s == SegmentOf(ps[i])
  {
    var last := |ps| - 1;
    if s in Loads(ps[..last]) { i := LoadsFrom(ps[..last], s); } else { i := last; }
  }

  /** The pages that cover the memory size of a loadable header. */
  function PagesOf(p: ProgramHeader): nat { (p.memorySize + 4095) / 4096 }

  /** The header loads something at an address. */
  predicate Covers(p: ProgramHeader, va: nat) {
    p.kind == LOAD && p.virtualAddress <= va < p.virtualAddress + 4096 * PagesOf(p)
  }

  /** Some loadable header of the file covers an address. */
  ghost predicate Loaded(file: seq<Byte>, va: nat)
    requires FileHeaderOk(file)
  {
    exists i :: 0 <= i < HeaderCount(file) && Covers(HeaderAt(file, HeaderOffset(file) + 56 * i), va)
  }

  function Stacks(ps: seq<ProgramHeader>): nat {
    if ps == [] then 0 else Stacks(ps[..|ps| - 1]) + if ps[|ps| - 1].kind == GNU_STACK then 1 else 0
  }

  function SumPages(ss: seq<Segment>): nat {
    if ss == [] then 0 else SumPages(ss[..|ss| - 1]) + ss[|ss| - 1].pageCount
  }

  /** The 32-bit room left for a segment of `pages` pages; it wraps around for more than sixteen. */
  function Room(pages: nat): nat { (MAX_IMAGE_PAGES + 0x1_0000_0000 - pages % 0x1_0000_0000) % 0x1_0000_0000 }

  /** Two page ranges meet, with the 64-bit sums of the loader. */
  predicate RangesOverlap(a: nat, aSize: nat, b: nat, bSize: nat) {
    a < (b + bSize) % 0x1_0000_0000_0000_0000 && b < (a + aSize) % 0x1_0000_0000_0000_0000
  }

  predicate Collide(p: ProgramHeader, s: Segment) {
    RangesOverlap(p.virtualAddress, (p.memorySize + 4095) / 4096 * 4096, s.virtualAddress, s.pageCount * 4096)
  }

  predicate EntersAt(p: ProgramHeader, entry: nat) {
    p.kind == LOAD && Executable(p.flags) && p.virtualAddress <= entry < p.virtualAddress + p.fileSize
  }

  /** A header that fits in after the headers `before`. */
  predicate Admissible(before: seq<ProgramHeader>, p: ProgramHeader, size: nat, userMin: nat, userMax: nat) {
    if p.kind == GNU_STACK then StackOk(p) && Stacks(before) == 0
    else
      && p.kind == LOAD && LoadOk(p, size, userMin, userMax) && |Loads(before)| < MAX_SEGMENTS
      && SumPages(Loads(before)) % 0x1_0000_0000 <= Room(PageCount(p))
      && forall s :: s in Loads(before) ==> !Collide(p, s)
  }

  ghost predicate AllAdmissible(ps: seq<ProgramHeader>, size: nat, userMin: nat, userMax: nat) {
    ps == [] ||
    var before, p := ps[..|ps| - 1], ps[|ps| - 1];
    AllAdmissible(before, size, userMin, userMax) && Admissible(before, p, size, userMin, userMax)
  }

  lemma {:induction false} PrefixAdmissible(ps: seq<ProgramHeader>, n: nat, size: nat, userMin: nat, userMax: nat)
    requires AllAdmissible(ps, size, userMin, userMax) && n <= |ps|
    ensures AllAdmissible(ps[..n], size, userMin, userMax)
    decreases |ps|
  {
    if n == |ps| { assert ps[..n] == ps; } else {
      PrefixAdmissible(ps[..|ps| - 1], n, size, userMin, userMax);
      assert ps[..|ps| - 1][..n] == ps[..n];
    }
  }

  /** The program headers of an image, each admissible after the ones before it. */
  ghost predicate Acceptable(ps: seq<ProgramHeader>, entry: nat, size: nat, userMin: nat, userMax: nat) {
    && AllAdmissible(ps, size, userMin, userMax)
    && Loads(ps) != [] && Stacks(ps) == 1 && exists p :: p in ps && EntersAt(p, entry)
  }

  /** The images elf_validate_user_image accepts. */
  ghost predicate Accepted(bytes: seq<Byte>, userMin: nat, userMax: nat) {
    && userMin < userMax && FileHeaderOk(bytes) && HeaderOffset(bytes) + 56 * HeaderCount(bytes) < U64
    && Acceptable(Headers(bytes, HeaderCount(bytes)), EntryPoint(bytes), |bytes|, userMin, userMax)
  }

  /** What the loop has recorded after the headers `ps`. */
  ghost predicate Scanned(image: Image, stackSeen: bool, entryOk: bool, ps: seq<ProgramHeader>, entry: nat) {
    && image.segments == Loads(ps) && |image.segments| <= MAX_SEGMENTS
    && image.totalPages == SumPages(image.segments) % 0x1_0000_0000
    && stackSeen == (Stacks(ps) == 1) && Stacks(ps) <= 1
    && (entryOk <==> exists p :: p in ps && EntersAt(p, entry))
  }

  lemma Appended(ps: seq<ProgramHeader>, p: ProgramHeader)
    ensures Loads(ps + [p]) == Loads(ps) + if p.kind == LOAD then [SegmentOf(p)] else []
    ensures Stacks(ps + [p]) == Stacks(ps) + if p.kind == GNU_STACK then 1 else 0
  {}

  lemma SumAppended(ss: seq<Segment>, s: Segment)
    ensures SumPages(ss + [s]) == SumPages(ss) + s.pageCount
  {}

  lemma AddWrapped(a: nat, b: nat)
    ensures (a % 0x1_0000_0000 + b) % 0x1_0000_0000 == (a + b) % 0x1_0000_0000
  {}

  method NoCollision(p: ProgramHeader, ss: seq<Segment>) returns (free: bool)
    ensures free <==> forall s :: s in ss ==> !Collide(p, s)
  {
    for i := 0 to |ss|
      invariant forall k :: 0 <= k < i ==> !Collide(p, ss[k])
    {
      if Collide(p, ss[i]) { return false; }
    }
    return true;
  }

  method AdmitLoad(p: ProgramHeader, image: Image, size: nat, userMin: nat, userMax: nat, ghost ps: seq<ProgramHeader>)
    returns (ok: bool)
    requires p.kind == LOAD && image.segments == Loads(ps) && |image.segments| <= MAX_SEGMENTS
    requires image.totalPages == SumPages(image.segments) % 0x1_0000_0000
    ensures ok <==> Admissible(ps, p, size, userMin, userMax)
  {
    if |image.segments| == MAX_SEGMENTS || !LoadOk(p, size, userMin, userMax) { return false; }
    if image.totalPages > Room(PageCount(p)) { return false; }
    ok := NoCollision(p, image.segments);
  }

  /** The image record with one more segment. */
  function Recorded(image: Image, p: ProgramHeader): Image {
    Image(image.entry, (image.totalPages + PageCount(p)) % 0x1_0000_0000, image.segments + [SegmentOf(p)])
  }

  lemma RecordedLoad(image: Image, p: ProgramHeader, ps: seq<ProgramHeader>)
    requires p.kind == LOAD && image.segments == Loads(ps)
    requires image.totalPages == SumPages(image.segments) % 0x1_0000_0000
    ensures Recorded(image, p).segments == Loads(ps + [p])
    ensures Recorded(image, p).totalPages == SumPages(Recorded(image, p).segments) % 0x1_0000_0000
  {
    Appended(ps, p);
    SumAppended(image.segments, SegmentOf(p));
    AddWrapped(SumPages(image.segments), PageCount(p));
  }

  lemma EntryAppended(ps: seq<ProgramHeader>, p: ProgramHeader, entry: nat)
    ensures (exists q :: q in ps + [p] && EntersAt(q, entry)) <==>
      EntersAt(p, entry) || exists q :: q in ps && EntersAt(q, entry)
  {}

  method ScanHeader(p: ProgramHeader, image: Image, stack: bool, entered: bool, entry: nat, size: nat,
                    userMin: nat, userMax: nat, ghost ps: seq<ProgramHeader>)
    returns (ok: bool, next: Image, stackSeen: bool, entryOk: bool)
    requires Scanned(image, stack, entered, ps, entry) && AllAdmissible(ps, size, userMin, userMax)
    ensures ok <==> AllAdmissible(ps + [p], size, userMin, userMax)
    ensures ok ==> Scanned(next, stackSeen, entryOk, ps + [p], entry)
  {
    ok, next, stackSeen, entryOk := false, image, stack, entered;
    assert (ps + [p])[..|ps|] == ps;
    Appended(ps, p);
    EntryAppended(ps, p, entry);
    if p.kind == GNU_STACK {
      if stack || !StackOk(p) { return; }
      ok, stackSeen := true, true;
      return;
    }
    if p.kind != LOAD { return; }
    ok := AdmitLoad(p, image, size, userMin, userMax, ps);
    if !ok { return; }
    RecordedLoad(image, p, ps);
    next := Recorded(image, p);
    if EntersAt(p, entry) { entryOk := true; }
  }

  method ScanTable(ps: seq<ProgramHeader>, entry: nat, size: nat, userMin: nat, userMax: nat)
    returns (ok: bool, image: Image)
    ensures ok <==> Acceptable(ps, entry, size, userMin, userMax)
    ensures ok ==> image.entry == entry && image.segments == Loads(ps)
    ensures ok ==> image.totalPages == SumPages(image.segments) % 0x1_0000_0000
  {
    var entryOk, stackSeen := false, false;
    image := Image(0, 0, []);
    for index := 0 to |ps|
      invariant Scanned(image, stackSeen, entryOk, ps[..index], entry)
      invariant AllAdmissible(ps[..index], size, userMin, userMax)
    {
      assert ps[..index + 1] == ps[..index] + [ps[index]];
      ok, image, stackSeen, entryOk :=
        ScanHeader(ps[index], image, stackSeen, entryOk, entry, size, userMin, userMax, ps[..index]);
      if !ok {
        if AllAdmissible(ps, size, userMin, userMax) { PrefixAdmissible(ps, index + 1, size, userMin, userMax); }
        return;
      }
    }
    assert ps[..|ps|] == ps;
    if image.segments == [] || !entryOk || !stackSeen { return false, image; }
    return true, image.(entry := entry);
  }

  /** The validation accepts exactly those images and records their segments in order. */
  method ValidateUserImage(bytes: seq<Byte>, userMin: nat, userMax: nat) returns (ok: bool, image: Image)
    ensures ok <==> Accepted(bytes, userMin, userMax)
    ensures ok ==> image.entry == EntryPoint(bytes)
    ensures ok ==> image.segments == Loads(Headers(bytes, HeaderCount(bytes)))
    ensures ok ==> image.totalPages == SumPages(image.segments) % 0x1_0000_0000
  {
    if userMin >= userMax || !FileHeaderOk(bytes) || HeaderOffset(bytes) + 56 * HeaderCount(bytes) >= U64 {
      return false, Image(0, 0, []);
    }
    ok, image := ScanTable(Headers(bytes, HeaderCount(bytes)), EntryPoint(bytes), |bytes|, userMin, userMax);
  }

  // ------------------------------------------------------- accepted images

  predicate SegmentOk(s: Segment, size: nat, userMin: nat, userMax: nat) {
    && s.virtualAddress % 4096 == 0 && userMin <= s.virtualAddress && s.virtualAddress + s.memorySize <= userMax
    && s.fileSize <= s.memorySize && s.fileOffset + s.fileSize <= size
    && 4096 * s.pageCount < s.memorySize + 4096 && s.memorySize <= 4096 * s.pageCount && s.pageCount > 0
    && !(Writable(s.flags) && Executable(s.flags))
  }

  predicate Apart(a: Segment, b: Segment) {
    || a.virtualAddress + 4096 * a.pageCount <= b.virtualAddress
    || b.virtualAddress + 4096 * b.pageCount <= a.virtualAddress
  }

  ghost predicate AllApart(ss: seq<Segment>) {
    forall i, j :: 0 <= i < j < |ss| ==> Apart(ss[i], ss[j])
  }

  /**
  Every segment of an accepted image covers whole pages of the user range and a range of the file, is never
  both writable and executable, and shares no page with another one. The range is short enough for page
  counts to fit in 32 bits and for its end to be rounded up to a page.
  */
  lemma {:induction false} AcceptedSegments(ps: seq<ProgramHeader>, size: nat, userMin: nat, userMax: nat)
    requires AllAdmissible(ps, size, userMin, userMax) && userMax <= userMin + 0xFFF_FFFF_F000 && userMax + 4096 <= U64
    ensures forall s :: s in Loads(ps) ==> SegmentOk(s, size, userMin, userMax)
    ensures AllApart(Loads(ps))
  {
    if ps != [] {
      var before, p := ps[..|ps| - 1], ps[|ps| - 1];
      AcceptedSegments(before, size, userMin, userMax);
      if p.kind == LOAD {
        LoadedSegment(p, size, userMin, userMax);
        forall s | s in Loads(before)
          ensures Apart(s, SegmentOf(p))
        {
          NoCollisionApart(p, s, size, userMin, userMax);
        }
      }
    }
  }

  lemma LoadedSegment(p: ProgramHeader, size: nat, userMin: nat, userMax: nat)
    requires LoadOk(p, size, userMin, userMax) && userMax <= userMin + 0xFFF_FFFF_F000
    ensures SegmentOk(SegmentOf(p), size, userMin, userMax) && PageCount(p) == (p.memorySize + 4095) / 4096
  {}

  lemma NoCollisionApart(p: ProgramHeader, s: Segment, size: nat, userMin: nat, userMax: nat)
    requires LoadOk(p, size, userMin, userMax) && SegmentOk(s, size, userMin, userMax) && !Collide(p, s)
    requires userMax <= userMin + 0xFFF_FFFF_F000 && userMax + 4096 <= U64
    ensures Apart(s, SegmentOf(p))
  {}

  /**
  The page budget is checked by a 32-bit subtraction that wraps around: an accepted image holds at most
  sixteen pages exactly when none of its segments alone is longer than that.
  */
  lemma {:induction false} BudgetExact(ps: seq<ProgramHeader>, size: nat, userMin: nat, userMax: nat)
    requires AllAdmissible(ps, size, userMin, userMax)
    ensures SumPages(Loads(ps)) <= MAX_IMAGE_PAGES <==> forall s :: s in Loads(ps) ==> s.pageCount <= MAX_IMAGE_PAGES
  {
    if ps != [] {
      var before, p := ps[..|ps| - 1], ps[|ps| - 1];
      BudgetExact(before, size, userMin, userMax);
      if p.kind == LOAD {
        SumAppended(Loads(before), SegmentOf(p));
        BudgetStep(SumPages(Loads(before)), PageCount(p));
        assert Loads(ps)[|Loads(before)|] == SegmentOf(p);
        assert forall s :: s in Loads(before) ==> s in Loads(ps);
      } else {
        assert Loads(ps) == Loads(before);
      }
    }
  }

  lemma BudgetStep(total: nat, pages: nat)
    requires total % 0x1_0000_0000 <= Room(pages) && pages < 0x1_0000_0000
    ensures total + pages <= MAX_IMAGE_PAGES <==> total <= MAX_IMAGE_PAGES && pages <= MAX_IMAGE_PAGES
  {}

  /** One such image: seventeen pages of code and a stack header. */
  function Oversized(): seq<ProgramHeader> {
    [ProgramHeader(LOAD, 5, 0, 0x80_0000_1000, 0, 4096, 69632, 4096),
     ProgramHeader(GNU_STACK, 6, 0, 0, 0, 0, 0, 16)]
  }

  lemma OversizedSteps(size: nat, userMin: nat, userMax: nat)
    requires size == 4096 && userMin == 0x80_0000_1000 && userMax == 0x80_001F_F000
    ensures AllAdmissible(Oversized()[..1], size, userMin, userMax)
    ensures Loads(Oversized()[..1]) == [SegmentOf(Oversized()[0])]
    ensures Stacks(Oversized()[..1]) == 0
  {}

  lemma OversizedPages()
    ensures Loads(Oversized()) == [SegmentOf(Oversized()[0])]
    ensures Stacks(Oversized()) == 1 && SumPages(Loads(Oversized())) == 17
  {}

  lemma OversizedAcceptable()
    ensures Acceptable(Oversized(), 0x80_0000_1000, 4096, 0x80_0000_1000, 0x80_001F_F000)
    ensures SumPages(Loads(Oversized())) == 17
  {
    var ps := Oversized();
    OversizedSteps(4096, 0x80_0000_1000, 0x80_001F_F000);
    OversizedPages();
    assert ps[..|ps| - 1] == ps[..1];
    assert ps[0] in ps && EntersAt(ps[0], 0x80_0000_1000);
  }

  // --------------------------------------------------- acceptance, header by header

  /** A header of a well-formed image: a stack that is all zero but for its rights, or pages of the user range. */
  predicate Sound(p: ProgramHeader, size: nat, userMin: nat, userMax: nat) {
    if p.kind == LOAD then
      && 0 < p.memorySize && p.fileSize <= p.memorySize && p.flags in {4, 5, 6} && p.alignment == 4096
      && p.offset % 4096 == 0 && p.offset + p.fileSize <= size
      && p.virtualAddress % 4096 == 0 && userMin <= p.virtualAddress && p.virtualAddress + p.memorySize <= userMax
    else
      && p.kind == GNU_STACK && p.flags == 6
      && p.offset == p.virtualAddress == p.physicalAddress == p.fileSize == p.memorySize == 0
  }

  /** No address belongs to both. */
  ghost predicate Disjoint(p: ProgramHeader, q: ProgramHeader) {
    forall va :: Covers(p, va) ==> !Covers(q, va)
  }

  function TotalPages(ps: seq<ProgramHeader>): nat {
    if ps == [] then 0
    else TotalPages(ps[..|ps| - 1]) + if ps[|ps| - 1].kind == LOAD then PagesOf(ps[|ps| - 1]) else 0
  }

  ghost predicate AllDisjoint(ps: seq<ProgramHeader>) {
    forall i, j :: 0 <= i < j < |ps| ==> Disjoint(ps[i], ps[j])
  }

  /** What an image must be, whatever the order of its headers. */
  ghost predicate WellFormed(ps: seq<ProgramHeader>, entry: nat, size: nat, userMin: nat, userMax: nat) {
    && (forall p :: p in ps ==> Sound(p, size, userMin, userMax)) && AllDisjoint(ps)
    && TotalPages(ps) <= MAX_IMAGE_PAGES
    && (exists i :: 0 <= i < |ps| && OnlyStack(ps, i))
    && exists p ::
         p in ps && p.kind == LOAD && p.flags == 5 && p.virtualAddress <= entry < p.virtualAddress + p.fileSize
  }

  ghost predicate OnlyStack(ps: seq<ProgramHeader>, i: int)
    requires 0 <= i < |ps|
  {
    ps[i].kind == GNU_STACK && forall j :: 0 <= j < |ps| && j != i ==> ps[j].kind != GNU_STACK
  }

  /** No header asks for more pages than an image may have. */
  ghost predicate Short(ps: seq<ProgramHeader>) {
    forall p :: p in ps && p.kind == LOAD ==> PagesOf(p) <= MAX_IMAGE_PAGES
  }

  /** The user range leaves room for the rounding of its end and for 32-bit page counts. */
  predicate Bounded(size: nat, userMin: nat, userMax: nat) {
    size < U64 && userMax <= userMin + 0xFFF_FFFF_F000 && userMax + 4096 <= U64
  }

  lemma SoundLoad(p: ProgramHeader, size: nat, userMin: nat, userMax: nat)
    requires p.kind == LOAD && Bounded(size, userMin, userMax)
    ensures LoadOk(p, size, userMin, userMax) <==> Sound(p, size, userMin, userMax)
    ensures Sound(p, size, userMin, userMax) ==> PageCount(p) == PagesOf(p)
  {
    SmallFlags(p.flags);
    if LoadOk(p, size, userMin, userMax) { LoadedSegment(p, size, userMin, userMax); }
  }

  lemma SmallFlags(flags: nat)
    ensures Readable(flags) && flags < 8 && !(Writable(flags) && Executable(flags)) <==> flags in {4, 5, 6}
    ensures flags in {4, 5, 6} ==> (Executable(flags) <==> flags == 5)
  {
    assert flags < 8 ==> flags in {0, 1, 2, 3, 4, 5, 6, 7};
  }

  lemma CollideExactly(p: ProgramHeader, q: ProgramHeader, size: nat, userMin: nat, userMax: nat)
    requires p.kind == LOAD && q.kind == LOAD && Bounded(size, userMin, userMax)
    requires Sound(p, size, userMin, userMax) && Sound(q, size, userMin, userMax)
    ensures Collide(p, SegmentOf(q)) <==> !Disjoint(q, p)
  {
    SoundLoad(q, size, userMin, userMax);
    CoverEnd(p, userMax);
    CoverEnd(q, userMax);
    var first := if p.virtualAddress < q.virtualAddress then q.virtualAddress else p.virtualAddress;
    if Collide(p, SegmentOf(q)) { assert Covers(p, first) && Covers(q, first); }
  }

  lemma CoverEnd(p: ProgramHeader, userMax: nat)
    requires 0 < p.memorySize && p.virtualAddress + p.memorySize <= userMax && userMax + 4096 <= U64
    ensures 0 < 4096 * PagesOf(p) && p.virtualAddress + 4096 * PagesOf(p) < U64
  {}

  /** The headers so far, in any order. */
  ghost predicate Table(ps: seq<ProgramHeader>, size: nat, userMin: nat, userMax: nat) {
    && (forall p :: p in ps ==> Sound(p, size, userMin, userMax)) && AllDisjoint(ps)
    && TotalPages(ps) <= MAX_IMAGE_PAGES && Stacks(ps) <= 1 && |Loads(ps)| <= MAX_SEGMENTS
  }

  lemma TableStep(ps: seq<ProgramHeader>, p: ProgramHeader, size: nat, userMin: nat, userMax: nat)
    ensures Table(ps + [p], size, userMin, userMax) <==>
      && Table(ps, size, userMin, userMax) && Sound(p, size, userMin, userMax)
      && (forall q :: q in ps ==> Disjoint(q, p))
      && TotalPages(ps + [p]) <= MAX_IMAGE_PAGES && Stacks(ps + [p]) <= 1 && |Loads(ps + [p])| <= MAX_SEGMENTS
  {
    Appended(ps, p);
    assert (ps + [p])[..|ps|] == ps;
    if Table(ps + [p], size, userMin, userMax) {
      assert forall i :: 0 <= i < |ps| ==> (ps + [p])[i] == ps[i];
      assert (ps + [p])[|ps|] == p;
      assert forall i :: 0 <= i < |ps| ==> Disjoint(ps[i], p);
    }
  }

  lemma {:induction false} PagesTotal(ps: seq<ProgramHeader>)
    requires Short(ps)
    ensures SumPages(Loads(ps)) == TotalPages(ps)
  {
    if ps != [] {
      var before, p := ps[..|ps| - 1], ps[|ps| - 1];
      PagesTotal(before);
      assert p in ps;
      if p.kind == LOAD { SumAppended(Loads(before), SegmentOf(p)); } else { assert Loads(ps) == Loads(before); }
    }
  }

  /** A header fits in exactly when it is sound, disjoint from the ones before it and in budget. */
  lemma AdmitsExactly(ps: seq<ProgramHeader>, p: ProgramHeader, size: nat, userMin: nat, userMax: nat)
    requires Bounded(size, userMin, userMax) && Table(ps, size, userMin, userMax) && Short(ps + [p])
    ensures Admissible(ps, p, size, userMin, userMax) <==> Table(ps + [p], size, userMin, userMax)
  {
    assert p in ps + [p] && (forall q :: q in ps ==> q in ps + [p]);
    TableStep(ps, p, size, userMin, userMax);
    Appended(ps, p);
    TotalAppended(ps, p);
    if p.kind == LOAD { AdmitsLoad(ps, p, size, userMin, userMax); }
  }

  lemma TotalAppended(ps: seq<ProgramHeader>, p: ProgramHeader)
    ensures TotalPages(ps + [p]) == TotalPages(ps) + if p.kind == LOAD then PagesOf(p) else 0
  {
    assert (ps + [p])[..|ps|] == ps;
  }

  lemma AdmitsLoad(ps: seq<ProgramHeader>, p: ProgramHeader, size: nat, userMin: nat, userMax: nat)
    requires Bounded(size, userMin, userMax) && Table(ps, size, userMin, userMax) && Short(ps)
    requires p.kind == LOAD && PagesOf(p) <= MAX_IMAGE_PAGES
    ensures Admissible(ps, p, size, userMin, userMax) <==>
      && Sound(p, size, userMin, userMax) && |Loads(ps)| < MAX_SEGMENTS
      && TotalPages(ps) + PagesOf(p) <= MAX_IMAGE_PAGES && forall q :: q in ps ==> Disjoint(q, p)
  {
    SoundLoad(p, size, userMin, userMax);
    PagesTotal(ps);
    if Sound(p, size, userMin, userMax) { CollisionsExactly(ps, p, size, userMin, userMax); }
  }

  lemma CollisionsExactly(ps: seq<ProgramHeader>, p: ProgramHeader, size: nat, userMin: nat, userMax: nat)
    requires Bounded(size, userMin, userMax) && p.kind == LOAD && Sound(p, size, userMin, userMax)
    requires forall q :: q in ps ==> Sound(q, size, userMin, userMax)
    ensures (forall s :: s in Loads(ps) ==> !Collide(p, s)) <==> forall q :: q in ps ==> Disjoint(q, p)
  {
    forall q | q in ps && q.kind == LOAD
      ensures SegmentOf(q) in Loads(ps) && (Collide(p, SegmentOf(q)) <==> !Disjoint(q, p))
    {
      var i: nat :| i < |ps| && ps[i] == q;
      LoadsOf(ps, i);
      CollideExactly(p, q, size, userMin, userMax);
    }
    forall s | s in Loads(ps)
      ensures exists q :: q in ps && q.kind == LOAD && s == SegmentOf(q)
    {
      var i := LoadsFrom(ps, s);
      assert ps[i] in ps;
    }
    assert forall q :: q in ps && q.kind != LOAD ==> Disjoint(q, p);
  }

  lemma {:induction false} AllAdmitted(ps: seq<ProgramHeader>, size: nat, userMin: nat, userMax: nat)
    requires Bounded(size, userMin, userMax) && Short(ps)
    ensures AllAdmissible(ps, size, userMin, userMax) <==> Table(ps, size, userMin, userMax)
  {
    if ps != [] {
      var before, p := ps[..|ps| - 1], ps[|ps| - 1];
      assert ps == before + [p];
      AllAdmitted(before, size, userMin, userMax);
      TableStep(before, p, size, userMin, userMax);
      if Table(before, size, userMin, userMax) { AdmitsExactly(before, p, size, userMin, userMax); }
    }
  }

  lemma {:induction false} StacksCount(ps: seq<ProgramHeader>)
    ensures Stacks(ps) == 0 <==> forall p :: p in ps ==> p.kind != GNU_STACK
    ensures Stacks(ps) == 1 <==> exists i :: 0 <= i < |ps| && OnlyStack(ps, i)
  {
    if ps != [] {
      var before, p := ps[..|ps| - 1], ps[|ps| - 1];
      StacksCount(before);
      assert ps == before + [p];
      if Stacks(before) == 1 && p.kind != GNU_STACK {
        var i :| 0 <= i < |before| && OnlyStack(before, i);
        assert OnlyStack(ps, i);
      } else if Stacks(before) == 0 && p.kind == GNU_STACK {
        assert OnlyStack(ps, |before|);
      }
      if i :| 0 <= i < |ps| && OnlyStack(ps, i) {
        if i < |before| {
          assert OnlyStack(before, i);
        } else {
          assert forall q :: q in before ==> q.kind != GNU_STACK;
        }
      }
    }
  }

  lemma {:induction false} LoadCount(ps: seq<ProgramHeader>)
    ensures |Loads(ps)| + Stacks(ps) <= |ps|
    ensures Loads(ps) == [] <==> forall p :: p in ps ==> p.kind != LOAD
  {
    if ps != [] {
      LoadCount(ps[..|ps| - 1]);
      assert ps == ps[..|ps| - 1] + [ps[|ps| - 1]];
    }
  }

  /**
  Acceptance without the order of the scan: as long as no single header asks for more than sixteen pages, the
  accepted images are exactly the well-formed ones.
  */
  lemma AcceptedExactly(ps: seq<ProgramHeader>, entry: nat, size: nat, userMin: nat, userMax: nat)
    requires Bounded(size, userMin, userMax) && |ps| <= MAX_SEGMENTS + 1 && Short(ps)
    ensures Acceptable(ps, entry, size, userMin, userMax) <==> WellFormed(ps, entry, size, userMin, userMax)
  {
    AllAdmitted(ps, size, userMin, userMax);
    StacksCount(ps);
    LoadCount(ps);
    forall p | p in ps && p.kind == LOAD && Sound(p, size, userMin, userMax)
      ensures EntersAt(p, entry) <==> p.flags == 5 && p.virtualAddress <= entry < p.virtualAddress + p.fileSize
    {
      SmallFlags(p.flags);
    }
  }

  lemma LeTwo(bytes: seq<Byte>, at: nat, low: Byte, high: Byte)
    requires at + 2 <= |bytes|
    ensures Le(bytes, at, 2) == 256 * (high as nat) + low <==> bytes[at] == low && bytes[at + 1] == high
  {
    assert Le(bytes, at + 1, 1) == bytes[at + 1] + 256 * Le(bytes, at + 2, 0);
  }

  lemma LeFour(bytes: seq<Byte>, at: nat)
    requires at + 4 <= |bytes|
    ensures Le(bytes, at, 4) == Le(bytes, at, 2) + 65536 * Le(bytes, at + 2, 2)
  {
    assert Le(bytes, at + 2, 2) == bytes[at + 2] + 256 * Le(bytes, at + 3, 1);
    assert Le(bytes, at + 1, 3) == bytes[at + 1] + 256 * Le(bytes, at + 2, 2);
    assert Le(bytes, at, 2) == bytes[at] + 256 * Le(bytes, at + 1, 1);
    assert Le(bytes, at + 1, 1) == bytes[at + 1] + 256 * Le(bytes, at + 2, 0);
  }

  /** The bytes every accepted file has in its fixed part. */
  lemma FileHeaderBytes(bytes: seq<Byte>)
    requires |bytes| >= 64
    ensures FileHeaderOk(bytes) <==>
      && bytes[0] == 0x7F && bytes[1] == 0x45 && bytes[2] == 0x4C && bytes[3] == 0x46
      && bytes[4] == 2 && bytes[5] == 1 && bytes[6] == 1
      && bytes[16] == 2 && bytes[17] == 0 && bytes[18] == 62 && bytes[19] == 0
      && bytes[20] == 1 && bytes[21] == 0 && bytes[22] == 0 && bytes[23] == 0
      && bytes[48] == 0 && bytes[49] == 0 && bytes[50] == 0 && bytes[51] == 0
      && bytes[52] == 64 && bytes[53] == 0 && bytes[54] == 56 && bytes[55] == 0
      && 1 <= bytes[56] <= 9 && bytes[57] == 0 && HeaderOffset(bytes) + 56 * HeaderCount(bytes) <= |bytes|
  {
    LeTwo(bytes, 16, 2, 0);
    LeTwo(bytes, 18, 62, 0);
    LeTwo(bytes, 20, 1, 0);
    LeTwo(bytes, 22, 0, 0);
    LeFour(bytes, 20);
    LeTwo(bytes, 48, 0, 0);
    LeTwo(bytes, 50, 0, 0);
    LeFour(bytes, 48);
    LeTwo(bytes, 52, 64, 0);
    LeTwo(bytes, 54, 56, 0);
    LeTwo(bytes, 56, bytes[56], bytes[57]);
  }

  // ------------------------------------------------------------ files for given headers

  function Pow256(n: nat): nat { if n == 0 then 1 else 256 * Pow256(n - 1) }

  /** The bytes `xs` stand at a place. */
  predicate Spelled(bytes: seq<Byte>, at: nat, xs: seq<Byte>) {
    at + |xs| <= |bytes| && bytes[at..at + |xs|] == xs
  }

  lemma SpelledParts(bytes: seq<Byte>, at: nat, a: seq<Byte>, b: seq<Byte>)
    requires Spelled(bytes, at, a + b)
    ensures Spelled(bytes, at, a) && Spelled(bytes, at + |a|, b)
  {
    var both := bytes[at..at + |a + b|];
    assert a == both[..|a|] == bytes[at..at + |a|];
    assert b == both[|a|..] == bytes[at + |a|..at + |a| + |b|];
  }

  /** Reading back a number. */
  lemma {:induction false} PutLe(bytes: seq<Byte>, at: nat, x: nat, n: nat)
    requires Spelled(bytes, at, LeBytes(x, n)) && x < Pow256(n)
    ensures Le(bytes, at, n) == x
    decreases n
  {
    if n > 0 {
      SpelledParts(bytes, at, [x % 256], LeBytes(x / 256, n - 1));
      assert bytes[at] == bytes[at..at + 1][0];
      PutLe(bytes, at + 1, x / 256, n - 1);
    }
  }

  /** A field of a record: its value and its width in bytes. */
  datatype Field = Field(value: nat, width: nat) {
    predicate Fits() { value < Pow256(width) }
  }

  /** Where a field starts. */
  function Offset(fields: seq<Field>, i: nat): nat
    requires i <= |fields|
    decreases i
  {
    if i == 0 then 0 else Offset(fields, i - 1) + fields[i - 1].width
  }

  function Written(fields: seq<Field>, n: nat): (r: seq<Byte>)
    requires n <= |fields|
    ensures |r| == Offset(fields, n)
    decreases n, |fields|
  {
    if n == 0 then [] else Written(fields, n - 1) + LeBytes(fields[n - 1].value, fields[n - 1].width)
  }

  function AllWritten(fields: seq<Field>): (r: seq<Byte>)
    ensures |r| == Offset(fields, |fields|)
  {
    Written(fields, |fields|)
  }

  /** Every field of a written record is read back. */
  lemma {:induction false} FieldRead(bytes: seq<Byte>, at: nat, fields: seq<Field>, n: nat, i: nat)
    requires i < n <= |fields| && fields[i].Fits() && Spelled(bytes, at, Written(fields, n))
    ensures at + Offset(fields, i) + fields[i].width <= |bytes|
    ensures Le(bytes, at + Offset(fields, i), fields[i].width) == fields[i].value
    decreases n
  {
    var last := fields[n - 1];
    SpelledParts(bytes, at, Written(fields, n - 1), LeBytes(last.value, last.width));
    if i == n - 1 {
      PutLe(bytes, at + Offset(fields, i), last.value, last.width);
    } else {
      FieldRead(bytes, at, fields, n - 1, i);
    }
  }

  function HeaderFields(p: ProgramHeader): seq<Field> {
    [Field(p.kind, 4), Field(p.flags, 4), Field(p.offset, 8), Field(p.virtualAddress, 8), Field(p.physicalAddress, 8),
     Field(p.fileSize, 8), Field(p.memorySize, 8), Field(p.alignment, 8)]
  }

  /** The fields fit their places in the file. */
  predicate Encodable(p: ProgramHeader) {
    && p.kind < 0x1_0000_0000 && p.flags < 0x1_0000_0000 && p.offset < U64 && p.virtualAddress < U64
    && p.physicalAddress < U64 && p.fileSize < U64 && p.memorySize < U64 && p.alignment < U64
  }

  lemma Powers()
    ensures Pow256(1) == 256 && Pow256(2) == 0x1_0000 && Pow256(4) == 0x1_0000_0000 && Pow256(8) == U64
  {
    assert Pow256(4) == 65536 * Pow256(2) && Pow256(8) == 0x1_0000_0000 * Pow256(4);
  }

  lemma HeaderOffsets(p: ProgramHeader)
    ensures
      var fs := HeaderFields(p);
      && Offset(fs, 0) == 0 && Offset(fs, 1) == 4 && Offset(fs, 2) == 8 && Offset(fs, 3) == 16 && Offset(fs, 4) == 24
      && Offset(fs, 5) == 32 && Offset(fs, 6) == 40 && Offset(fs, 7) == 48 && Offset(fs, 8) == 56
  {}

  /** One field of a program header. */
  lemma HeaderField(bytes: seq<Byte>, at: nat, p: ProgramHeader, i: nat)
    requires Encodable(p) && i < 8 && Spelled(bytes, at, AllWritten(HeaderFields(p)))
    ensures
      var f, place := HeaderFields(p)[i], at + Offset(HeaderFields(p), i);
      place + f.width <= |bytes| && Le(bytes, place, f.width) == f.value
  {
    Powers();
    FieldRead(bytes, at, HeaderFields(p), |HeaderFields(p)|, i);
  }

  lemma HeaderRead(bytes: seq<Byte>, at: nat, p: ProgramHeader)
    requires Encodable(p) && Spelled(bytes, at, AllWritten(HeaderFields(p)))
    ensures at + 56 <= |bytes| && HeaderAt(bytes, at) == p
  {
    HeaderOffsets(p);
    HeaderField(bytes, at, p, 0);
    HeaderField(bytes, at, p, 1);
    HeaderField(bytes, at, p, 2);
    HeaderField(bytes, at, p, 3);
    HeaderField(bytes, at, p, 4);
    HeaderField(bytes, at, p, 5);
    HeaderField(bytes, at, p, 6);
    HeaderField(bytes, at, p, 7);
  }

  /** Pieces of 56 bytes, one behind the other. */
  function Join(pieces: seq<seq<Byte>>, n: nat): (r: seq<Byte>)
    requires n <= |pieces| && forall i :: 0 <= i < |pieces| ==> |pieces[i]| == 56
    ensures |r| == 56 * n
    decreases n, |pieces|
  {
    if n == 0 then [] else Join(pieces, n - 1) + pieces[n - 1]
  }

  /** Every piece stands at its place. */
  lemma {:induction false} PiecesStand(bytes: seq<Byte>, at: nat, pieces: seq<seq<Byte>>, n: nat, i: nat)
    requires i < n <= |pieces| && forall j :: 0 <= j < |pieces| ==> |pieces[j]| == 56
    requires Spelled(bytes, at, Join(pieces, n))
    ensures Spelled(bytes, at + 56 * i, pieces[i])
    decreases n
  {
    SpelledParts(bytes, at, Join(pieces, n - 1), pieces[n - 1]);
    if i < n - 1 { PiecesStand(bytes, at, pieces, n - 1, i); }
  }

  function HeaderBytes(p: ProgramHeader): (r: seq<Byte>)
    ensures |r| == 56
  {
    HeaderOffsets(p);
    AllWritten(HeaderFields(p))
  }

  function Pieces(ps: seq<ProgramHeader>): (r: seq<seq<Byte>>)
    ensures |r| == |ps| && forall i :: 0 <= i < |r| ==> r[i] == HeaderBytes(ps[i]) && |r[i]| == 56
  {
    seq(|ps|, i requires 0 <= i < |ps| => HeaderBytes(ps[i]))
  }

  /** The program headers of a file, one behind the other. */
  function AllHeaders(ps: seq<ProgramHeader>): (r: seq<Byte>)
    ensures |r| == 56 * |ps|
  {
    Join(Pieces(ps), |ps|)
  }

  /** The headers stand one behind the other from here on. */
  predicate HeadersStand(bytes: seq<Byte>, at: nat, ps: seq<ProgramHeader>, n: nat)
    decreases n, |ps|
  {
    if n == 0 then Spelled(bytes, at, AllHeaders(ps)) else HeadersStand(bytes, at, ps, n - 1)
  }

  lemma FoldHeaders(bytes: seq<Byte>, at: nat, ps: seq<ProgramHeader>)
    ensures HeadersStand(bytes, at, ps, 3) <==> Spelled(bytes, at, AllHeaders(ps))
  {
    assert HeadersStand(bytes, at, ps, 1) == HeadersStand(bytes, at, ps, 0);
  }

  lemma HeadersRead(bytes: seq<Byte>, at: nat, ps: seq<ProgramHeader>, i: nat)
    requires i < |ps| && Encodable(ps[i]) && HeadersStand(bytes, at, ps, 3)
    ensures at + 56 * i + 56 <= |bytes| && HeaderAt(bytes, at + 56 * i) == ps[i]
  {
    FoldHeaders(bytes, at, ps);
    PiecesStand(bytes, at, Pieces(ps), |ps|, i);
    HeaderRead(bytes, at + 56 * i, ps[i]);
  }

  const IDENTIFICATION: seq<Byte> := [0x7F, 0x45, 0x4C, 0x46, 2, 1, 1, 0, 0, 0, 0, 0, 0, 0, 0, 0]

  /** The fixed part behind the identification: type, machine, version, entry, tables, flags and sizes. */
  function FixedFields(entry: nat, count: nat): seq<Field> {
    [Field(2, 2), Field(62, 2), Field(1, 4), Field(entry, 8), Field(64, 8), Field(0, 8), Field(0, 4), Field(64, 2),
     Field(56, 2), Field(count, 2), Field(0, 2), Field(0, 2), Field(0, 2)]
  }

  lemma FixedOffsets(entry: nat, count: nat)
    ensures
      var fs := FixedFields(entry, count);
      && Offset(fs, 0) == 0 && Offset(fs, 1) == 2 && Offset(fs, 2) == 4 && Offset(fs, 3) == 8 && Offset(fs, 4) == 16
      && Offset(fs, 6) == 32 && Offset(fs, 7) == 36 && Offset(fs, 8) == 38 && Offset(fs, 9) == 40
      && Offset(fs, 13) == 48
  {}

  lemma FixedFit(entry: nat, count: nat)
    requires entry < U64 && count < 0x1_0000
    ensures
      var fs := FixedFields(entry, count);
      && fs[0].Fits() && fs[1].Fits() && fs[2].Fits() && fs[3].Fits() && fs[4].Fits()
      && fs[6].Fits() && fs[7].Fits() && fs[8].Fits() && fs[9].Fits()
  {
    Powers();
  }

  lemma KindRead(bytes: seq<Byte>, entry: nat, count: nat)
    requires entry < U64 && count < 0x1_0000 && Spelled(bytes, 16, AllWritten(FixedFields(entry, count)))
    ensures |bytes| >= 64 && Le(bytes, 16, 2) == 2 && Le(bytes, 18, 2) == 62 && Le(bytes, 20, 4) == 1
    ensures Le(bytes, 24, 8) == entry && Le(bytes, 32, 8) == 64
  {
    var fs := FixedFields(entry, count);
    FixedOffsets(entry, count);
    FixedFit(entry, count);
    FieldRead(bytes, 16, fs, |fs|, 0);
    FieldRead(bytes, 16, fs, |fs|, 1);
    FieldRead(bytes, 16, fs, |fs|, 2);
    FieldRead(bytes, 16, fs, |fs|, 3);
    FieldRead(bytes, 16, fs, |fs|, 4);
  }

  lemma SizesRead(bytes: seq<Byte>, entry: nat, count: nat)
    requires entry < U64 && count < 0x1_0000 && Spelled(bytes, 16, AllWritten(FixedFields(entry, count)))
    ensures |bytes| >= 64 && Le(bytes, 48, 4) == 0 && Le(bytes, 52, 2) == 64
    ensures Le(bytes, 54, 2) == 56 && Le(bytes, 56, 2) == count
  {
    var fs := FixedFields(entry, count);
    FixedOffsets(entry, count);
    FixedFit(entry, count);
    FieldRead(bytes, 16, fs, |fs|, 6);
    FieldRead(bytes, 16, fs, |fs|, 7);
    FieldRead(bytes, 16, fs, |fs|, 8);
    FieldRead(bytes, 16, fs, |fs|, 9);
  }

  /** A file with these headers behind its fixed part, padded with zeros. */
  function FileOf(ps: seq<ProgramHeader>, entry: nat, padding: nat): (r: seq<Byte>)
    ensures |r| == 64 + 56 * |ps| + padding
  {
    FixedOffsets(entry, |ps|);
    IDENTIFICATION + AllWritten(FixedFields(entry, |ps|)) + AllHeaders(ps) + seq(padding, _ => 0)
  }

  /** The parts stand where they belong. */
  lemma FileParts(ps: seq<ProgramHeader>, entry: nat, padding: nat)
    ensures
      var file := FileOf(ps, entry, padding);
      && Spelled(file, 0, IDENTIFICATION) && Spelled(file, 16, AllWritten(FixedFields(entry, |ps|)))
      && HeadersStand(file, 64, ps, 3)
  {
    FixedOffsets(entry, |ps|);
    var file, fixed := FileOf(ps, entry, padding), AllWritten(FixedFields(entry, |ps|));
    var zeros: seq<Byte> := seq(padding, _ => 0);
    assert Spelled(file, 0, file);
    SpelledParts(file, 0, IDENTIFICATION + fixed + AllHeaders(ps), zeros);
    SpelledParts(file, 0, IDENTIFICATION + fixed, AllHeaders(ps));
    SpelledParts(file, 0, IDENTIFICATION, fixed);
    FoldHeaders(file, 64, ps);
  }

  lemma Identified(bytes: seq<Byte>)
    requires Spelled(bytes, 0, IDENTIFICATION)
    ensures bytes[0] == 0x7F && bytes[1] == 0x45 && bytes[2] == 0x4C && bytes[3] == 0x46
    ensures bytes[4] == 2 && bytes[5] == 1 && bytes[6] == 1
  {
    assert forall i :: 0 <= i < 16 ==> bytes[i] == bytes[0..16][i];
  }

  /** A file whose parts stand where they belong has a proper fixed part. */
  lemma FixedRead(file: seq<Byte>, entry: nat, count: nat)
    requires 0 < count <= MAX_SEGMENTS + 1 && entry < U64 && 64 + 56 * count <= |file|
    requires Spelled(file, 0, IDENTIFICATION) && Spelled(file, 16, AllWritten(FixedFields(entry, count)))
    ensures FileHeaderOk(file) && HeaderCount(file) == count && HeaderOffset(file) == 64 && EntryPoint(file) == entry
  {
    Identified(file);
    KindRead(file, entry, count);
    SizesRead(file, entry, count);
  }

  lemma {:induction false} HeadersBack(file: seq<Byte>, ps: seq<ProgramHeader>, n: nat)
    requires FileHeaderOk(file) && HeaderCount(file) == |ps| && HeaderOffset(file) == 64
    requires HeadersStand(file, 64, ps, 3) && n <= |ps| && forall i :: 0 <= i < |ps| ==> Encodable(ps[i])
    ensures Headers(file, n) == ps[..n]
  {
    if n > 0 {
      HeadersBack(file, ps, n - 1);
      HeadersRead(file, 64, ps, n - 1);
    }
  }

  /** Every list of headers whose fields fit is the header list of some file. */
  lemma FileRead(ps: seq<ProgramHeader>, entry: nat, padding: nat)
    requires 0 < |ps| <= MAX_SEGMENTS + 1 && entry < U64 && forall i :: 0 <= i < |ps| ==> Encodable(ps[i])
    ensures
      var file := FileOf(ps, entry, padding);
      FileHeaderOk(file) && HeaderCount(file) == |ps| && Headers(file, |ps|) == ps && EntryPoint(file) == entry
  {
    FileParts(ps, entry, padding);
    FixedRead(FileOf(ps, entry, padding), entry, |ps|);
    HeadersBack(FileOf(ps, entry, padding), ps, |ps|);
  }

  /** A file of 4096 bytes whose accepted image has seventeen pages. */
  lemma OversizedAccepted()
    ensures
      var file := FileOf(Oversized(), 0x80_0000_1000, 3920);
      Accepted(file, 0x80_0000_1000, 0x80_001F_F000) && SumPages(Loads(Headers(file, HeaderCount(file)))) == 17
  {
    FileRead(Oversized(), 0x80_0000_1000, 3920);
    OversizedAcceptable();
  }
}
