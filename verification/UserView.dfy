/**
What a program sees of its memory, and what a store, a message or the life of other processes changes of it.
*/
module UserViews {
  import opened Common
  import opened PageTables
  import opened Paging
  import opened UserSpaces
  import opened ElfImages
  import opened LoadPlans

  /** The byte at offset `at` of a mapped page. */
  ghost function ByteOf(bytes: map<nat, seq<nat>>, m: Option<Mapping>, at: nat): Option<nat> {
    if m.Some? && m.value.address in bytes && at < |bytes[m.value.address]| then Some(bytes[m.value.address][at])
    else None
  }

  /** The byte a program sees at an address. */
  ghost function Seen(w: Words, root: nat, bytes: map<nat, seq<nat>>, va: nat): Option<nat> {
    ByteOf(bytes, UserResolve(w, root, Split(va)), va % 4096)
  }

  /** Frames that a page-table entry can hold. */
  ghost predicate Small(ps: seq<Placement>) { forall p :: p in ps ==> p.frame / 4096 < 0x100_0000_0000 }

  /** The placement behind a mapped page. */
  lemma Behind(start: set<nat>, w: Words, b: map<nat, seq<nat>>, s: Snapshot, v: Vpn) returns (p: Placement)
    requires Books(start, w, b, s, 3) && Small(s.placed) && UserResolve(s.words, s.root, v).Some?
    ensures p in s.placed && Split(p.va) == v && p.frame in s.bytes && s.bytes[p.frame] == p.content
    ensures |p.content| == 4096
    ensures UserResolve(s.words, s.root, v) == Some(Mapping(p.frame, Attributes(s.nx, p.writable, p.executable)))
  {
    SpaceSeen(start, w, b, s, v);
    p := LookupWitness(s.placed, s.nx, v);
    PlacedSeen(start, w, b, s, p);
    PlacedPage(start, w, b, s, p);
    SmallEntry(p, s.nx);
  }

  /** Different pages of a process lie in different frames. */
  lemma FramesApart(start: set<nat>, w: Words, b: map<nat, seq<nat>>, s: Snapshot, v: Vpn, v': Vpn)
    requires Books(start, w, b, s, 3) && Small(s.placed) && v != v'
    requires UserResolve(s.words, s.root, v).Some? && UserResolve(s.words, s.root, v').Some?
    ensures UserResolve(s.words, s.root, v).value.address != UserResolve(s.words, s.root, v').value.address
  {
    var p := Behind(start, w, b, s, v);
    var q := Behind(start, w, b, s, v');
    assert Single(s.placed) by { Unfold(start, w, b, s); }
    if p.frame == q.frame { OneFrame(s.placed, p, q); }
  }

  /** Storing a byte changes what the program sees at that address, and nowhere else. */
  lemma StoreSeen(start: set<nat>, w: Words, b: map<nat, seq<nat>>, s: Snapshot, va: nat, byte: nat, x: nat)
    requires Books(start, w, b, s, 3) && Small(s.placed) && va < VIRTUAL_END && x < VIRTUAL_END
    requires
      var m := UserResolve(s.words, s.root, Split(va));
      m.Some? && m.value.address in s.bytes && |s.bytes[m.value.address]| == 4096
    ensures
      var f := UserResolve(s.words, s.root, Split(va)).value.address;
      Seen(s.words, s.root, s.bytes[f := Stored(s.bytes[f], va % 4096, byte)], x) ==
        if x == va then Some(byte) else Seen(s.words, s.root, s.bytes, x)
  {
    SplitPage(x, va);
    if Split(x) != Split(va) && UserResolve(s.words, s.root, Split(x)).Some? {
      FramesApart(start, w, b, s, Split(x), Split(va));
    }
  }

  /** The program sees `data` from `address` on, and elsewhere what it saw. */
  ghost predicate Overwritten(
    w: Words, root: nat, b: map<nat, seq<nat>>, b': map<nat, seq<nat>>, address: nat, data: seq<Byte>)
  {
    forall x: nat :: x < VIRTUAL_END ==>
      Seen(w, root, b', x) == if address <= x < address + |data| then Some(data[x - address]) else Seen(w, root, b, x)
  }

  lemma FillMore(
    w: Words, root: nat, b: map<nat, seq<nat>>, b1: map<nat, seq<nat>>, b2: map<nat, seq<nat>>,
    address: nat, data: seq<Byte>, k: nat)
    requires k < |data| && Overwritten(w, root, b, b1, address, data[..k])
    requires Overwritten(w, root, b1, b2, address + k, [data[k]])
    ensures Overwritten(w, root, b, b2, address, data[..k + 1])
  {
    forall x: nat | x < VIRTUAL_END
      ensures Seen(w, root, b2, x) ==
        if address <= x < address + k + 1 then Some(data[..k + 1][x - address]) else Seen(w, root, b, x)
    {
      if address <= x < address + k { assert data[..k][x - address] == data[x - address]; }
    }
  }

  lemma OutsideTwice(
    w: Words, b: map<nat, seq<nat>>, b1: map<nat, seq<nat>>, b2: map<nat, seq<nat>>, own: set<nat>)
    requires Outside(w, w, b, b1, own) && Outside(w, w, b1, b2, own)
    ensures Outside(w, w, b, b2, own)
  {}

  // ----------------------------------------------------------------- what stays

  /** The page of a mapping holds what it held, if the program cannot write to it. */
  ghost predicate Untouched(b: map<nat, seq<nat>>, b': map<nat, seq<nat>>, m: Option<Mapping>) {
    m.Some? && W !in m.value.bits && m.value.address in b ==>
      m.value.address in b' && b'[m.value.address] == b[m.value.address]
  }

  /** The same pages are mapped to the same frames with the same rights, and read-only pages hold what they held. */
  ghost predicate Stands(w: Words, b: map<nat, seq<nat>>, root: nat, w': Words, b': map<nat, seq<nat>>) {
    forall v: Vpn ::
      UserResolve(w', root, v) == UserResolve(w, root, v) && Untouched(b, b', UserResolve(w, root, v))
  }

  lemma Alike(w: Words, b: map<nat, seq<nat>>, root: nat)
    ensures Stands(w, b, root, w, b)
  {}

  lemma StandsTrans(
    w: Words, b: map<nat, seq<nat>>, root: nat, w1: Words, b1: map<nat, seq<nat>>, w2: Words, b2: map<nat, seq<nat>>)
    requires Stands(w, b, root, w1, b1) && Stands(w1, b1, root, w2, b2)
    ensures Stands(w, b, root, w2, b2)
  {
    forall v: Vpn
      ensures UserResolve(w2, root, v) == UserResolve(w, root, v) && Untouched(b, b2, UserResolve(w, root, v))
    {
      assert UserResolve(w1, root, v) == UserResolve(w, root, v) && Untouched(b, b1, UserResolve(w, root, v));
      assert UserResolve(w2, root, v) == UserResolve(w1, root, v) && Untouched(b1, b2, UserResolve(w1, root, v));
    }
  }

  /** A process whose placements are as they were shows what it showed. */
  lemma SamePlaced(start: set<nat>, s: Snapshot, start': set<nat>, s': Snapshot)
    requires Books(start, s.words, s.bytes, s, 3) && Books(start', s'.words, s'.bytes, s', 3) && Small(s.placed)
    requires s'.root == s.root && s'.nx == s.nx && s'.placed == s.placed
    ensures Stands(s.words, s.bytes, s.root, s'.words, s'.bytes)
  {
    forall v: Vpn
      ensures UserResolve(s'.words, s.root, v) == UserResolve(s.words, s.root, v)
      ensures Untouched(s.bytes, s'.bytes, UserResolve(s.words, s.root, v))
    {
      SpaceSeen(start, s.words, s.bytes, s, v);
      SpaceSeen(start', s'.words, s'.bytes, s', v);
      if UserResolve(s.words, s.root, v).Some? {
        var p := Behind(start, s.words, s.bytes, s, v);
        PlacedSeen(start', s'.words, s'.bytes, s', p);
      }
    }
  }

  /** A store through a writable page leaves the read-only pages alone. */
  lemma StoreStands(start: set<nat>, w: Words, b: map<nat, seq<nat>>, s: Snapshot, v: Vpn, page: seq<nat>)
    requires Books(start, w, b, s, 3) && Small(s.placed) && UserResolve(s.words, s.root, v).Some?
    requires W in UserResolve(s.words, s.root, v).value.bits
    ensures
      var f := UserResolve(s.words, s.root, v).value.address;
      Stands(s.words, s.bytes, s.root, s.words, s.bytes[f := page])
  {
    var f := UserResolve(s.words, s.root, v).value.address;
    forall x: Vpn ensures Untouched(s.bytes, s.bytes[f := page], UserResolve(s.words, s.root, x)) {
      if x != v && UserResolve(s.words, s.root, x).Some? { FramesApart(start, w, b, s, x, v); }
    }
  }

  /** A byte of what a program header of a file loads. */
  datatype Spot = Spot(file: seq<Byte>, header: ProgramHeader, offset: nat) {
    ghost predicate InImage() {
      && FileHeaderOk(file) && header in Headers(file, HeaderCount(file)) && header.kind == LOAD
      && offset < 4096 * PagesOf(header)
    }

    /** The program reads the byte of the file there, or zero behind the file part, with exactly the header's rights. */
    ghost predicate ReadIn(w: Words, b: map<nat, seq<nat>>, root: nat, nx: bool) {
      var m := UserResolve(w, root, Split(header.virtualAddress + offset));
      && m.Some? && P in m.value.bits && U in m.value.bits
      && (W in m.value.bits <==> header.flags / 2 % 2 == 1)
      && (NX in m.value.bits <==> nx && header.flags % 2 == 0)
      && (offset < header.fileSize ==> header.offset + offset < |file|)
      && ByteOf(b, m, offset % 4096) == Some(if offset < header.fileSize then file[header.offset + offset] else 0)
    }
  }

  /** What a read-only page reads as stays. */
  lemma SpotStays(at: Spot, w: Words, b: map<nat, seq<nat>>, root: nat, w': Words, b': map<nat, seq<nat>>, nx: bool)
    requires Stands(w, b, root, w', b') && at.header.flags / 2 % 2 == 0 && at.ReadIn(w, b, root, nx)
    ensures at.ReadIn(w', b', root, nx)
  {
    var v := Split(at.header.virtualAddress + at.offset);
    assert UserResolve(w', root, v) == UserResolve(w, root, v) && Untouched(b, b', UserResolve(w, root, v));
  }

  /** The segment of a header. */
  lemma SpotSegment(at: Spot)
    requires at.InImage() && Fits(at.file, Segments(at.file))
    ensures
      var s := SegmentOf(at.header);
      && s in Segments(at.file) && s.pageCount == PagesOf(at.header)
      && s.fileOffset + s.fileSize <= |at.file| && s.virtualAddress % 4096 == 0
  {
    var ps := Headers(at.file, HeaderCount(at.file));
    var i: nat :| i < |ps| && ps[i] == at.header;
    LoadsOf(ps, i);
    CoveringPages(SegmentOf(at.header).pageCount, at.header.memorySize);
  }

  /** Reading a loaded image gives the bytes of its file. */
  lemma ImageReads(start: set<nat>, sn: Snapshot, base: seq<Placement>, image: seq<nat>, at: Spot)
    requires Books(start, sn.words, sn.bytes, sn, 3) && Small(sn.placed)
    requires at.InImage() && Fits(at.file, Segments(at.file)) && |image| == SumPages(Segments(at.file))
    requires sn.placed == base + ImagePlan(at.file, Segments(at.file), image)
    ensures at.ReadIn(sn.words, sn.bytes, sn.root, sn.nx)
  {
    SpotSegment(at);
    var p := PageInPlan(at.file, Segments(at.file), image, SegmentOf(at.header), at.offset / 4096);
    PlacedSeen(start, sn.words, sn.bytes, sn, p);
    assert p.frame / 4096 < 0x100_0000_0000;
    SpotRead(at, sn.words, sn.bytes, sn.root, sn.nx, p);
  }

  lemma SpotRead(at: Spot, w: Words, b: map<nat, seq<nat>>, root: nat, nx: bool, p: Placement)
    requires at.header.offset + at.header.fileSize <= |at.file| && at.header.virtualAddress % 4096 == 0
    requires SegmentOf(at.header).fileOffset + SegmentOf(at.header).fileSize <= |at.file|
    requires p == PagePlan(at.file, SegmentOf(at.header), at.offset / 4096, p.frame)
    requires UserResolve(w, root, Split(p.va)) == Some(MappingOf(p, nx))
    requires p.frame in b && b[p.frame] == p.content && p.frame / 4096 < 0x100_0000_0000
    ensures at.ReadIn(w, b, root, nx)
  {
    SeenByte(w, root, b, nx, at.file, SegmentOf(at.header), at.offset, p);
  }

  /** The address is mapped to a frame, writable and never executable once NX is on, and reads zero. */
  ghost predicate ZeroAt(w: Words, b: map<nat, seq<nat>>, root: nat, nx: bool, frame: nat, va: nat) {
    var m := UserResolve(w, root, Split(va));
    m == Some(Mapping(frame, Attributes(nx, true, false))) && ByteOf(b, m, va % 4096) == Some(0)
  }

  lemma ZeroRead(w: Words, b: map<nat, seq<nat>>, root: nat, nx: bool, p: Placement, va: nat)
    requires UserResolve(w, root, Split(p.va)) == Some(MappingOf(p, nx)) && Split(va) == Split(p.va)
    requires p.writable && !p.executable && p.content == ZERO_PAGE
    requires p.frame in b && b[p.frame] == p.content && p.frame / 4096 < 0x100_0000_0000
    ensures ZeroAt(w, b, root, nx, p.frame, va)
  {
    SmallEntry(p, nx);
  }

  /** Placed frames are pages of memory. */
  lemma SmallIn(start: set<nat>, sn: Snapshot, managed: set<nat>)
    requires Books(start, sn.words, sn.bytes, sn, 3) && start <= managed
    requires forall page :: page in managed ==> page < 0x100_0000_0000
    ensures Small(sn.placed)
  {
    forall p | p in sn.placed ensures p.frame / 4096 < 0x100_0000_0000 {
      PlacedSeen(start, sn.words, sn.bytes, sn, p);
    }
  }
}
