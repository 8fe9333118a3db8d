/**
Loading and releasing processes: the pages a process owns, what its address space maps and what
those pages hold, from an ELF image or a flat probe down to the page allocator.
*/
module Processes {
  import opened Common
  import opened Counting
  import opened PageTables
  import opened Pmm
  import opened Paging
  import opened UserSpaces
  import opened ElfImages
  import opened LoadPlans
  import opened UserViews
  import Capabilities
  import Ipc
  import Owners

  class Process {
    const mem: Memory
    const space: AddressSpace
    const endpoints: Ipc.Endpoints
    var pid: nat
    var appId: nat
    var image: seq<nat>
    var stack: nat
    var surface: nat
    var surfacePages: nat
    var endpoint: nat
    var entry: nat
    var capabilities: Capabilities.CapabilityTable
    /** What the address space maps, in the order it was mapped. */
    ghost var placed: seq<Placement>

    constructor (mem: Memory, endpoints: Ipc.Endpoints)
      requires mem.Valid()
      ensures this.mem == mem && this.endpoints == endpoints && fresh(space) && space.mem == mem && space.Valid()
      ensures Blank()
    {
      this.mem, this.endpoints := mem, endpoints;
      space := new AddressSpace(mem);
      capabilities := new Capabilities.CapabilityTable(0);
      pid, appId, image, stack, surface, surfacePages, endpoint, entry, placed := 0, 0, [], 0, 0, 0, 0, 0, [];
    }

    ghost function Data(): seq<nat>
      reads this`stack, this`surface, this`surfacePages, this`image
    {
      Fixed(stack, surface, surfacePages) + image
    }

    method FreeFrame(f: nat, ghost start: set<nat>, ghost a: seq<nat>, ghost b: seq<nat>)
      requires mem.Valid() && Unwinding(start, mem.pmm.managed, mem.pmm.Free(), a + [f] + b)
      modifies mem.pmm, mem.pmm.usable, mem.pmm.used
      ensures mem.Valid() && mem.pmm.managed == old(mem.pmm.managed)
      ensures Unwinding(start, mem.pmm.managed, mem.pmm.Free(), a + b)
    {
      UnwindOne(start, mem.pmm.managed, mem.pmm.Free(), a, f, b);
      assert f / 4096 < mem.pmm.pageCount;
      var ok := mem.pmm.FreePage(f);
    }

    method FreeImage(ghost start: set<nat>)
      requires mem.Valid() && Unwinding(start, mem.pmm.managed, mem.pmm.Free(), Data())
      modifies mem.pmm, mem.pmm.usable, mem.pmm.used
      ensures mem.Valid() && mem.pmm.managed == old(mem.pmm.managed)
      ensures Unwinding(start, mem.pmm.managed, mem.pmm.Free(), Fixed(stack, surface, surfacePages))
    {
      ghost var fixed := Fixed(stack, surface, surfacePages);
      assert image[0..] == image;
      for i := 0 to |image|
        invariant mem.Valid() && mem.pmm.managed == old(mem.pmm.managed)
        invariant Unwinding(start, mem.pmm.managed, mem.pmm.Free(), fixed + image[i..])
      {
        assert image[i..] == [image[i]] + image[i + 1..];
        assert fixed + image[i..] == fixed + [image[i]] + image[i + 1..];
        FreeFrame(image[i], start, fixed, image[i + 1..]);
      }
      assert fixed + image[|image|..] == fixed;
    }

    method FreeSurface(ghost start: set<nat>)
      requires mem.Valid() && surface != 0 && surfacePages != 0 && surfacePages < 0x1_0000
      requires Unwinding(start, mem.pmm.managed, mem.pmm.Free(), Frames(surface, surfacePages))
      modifies mem.pmm, mem.pmm.usable, mem.pmm.used
      ensures mem.Valid() && mem.pmm.managed == old(mem.pmm.managed) && mem.pmm.Free() == start
    {
      assert Frames(surface, surfacePages)[0] == surface && surface in Frames(surface, surfacePages);
      FramesPages(surface, surfacePages);
      assert Held(mem.pmm.managed, mem.pmm.Free(), surface / 4096, surfacePages);
      assert surface / 4096 in mem.pmm.managed;
      var ok := mem.pmm.ReleasePages(surface, surfacePages);
    }

    method FreeData(ghost start: set<nat>)
      requires mem.Valid() && surfacePages <= SURFACE_PAGES && Unwinding(start, mem.pmm.managed, mem.pmm.Free(), Data())
      modifies mem.pmm, mem.pmm.usable, mem.pmm.used
      ensures mem.Valid() && mem.pmm.managed == old(mem.pmm.managed) && mem.pmm.Free() == start
    {
      FreeImage(start);
      ghost var shown := if surface != 0 then Frames(surface, surfacePages) else [];
      if stack != 0 {
        assert Fixed(stack, surface, surfacePages) == [] + [stack] + shown && [] + shown == shown;
        FreeFrame(stack, start, [], shown);
      } else {
        assert Fixed(stack, surface, surfacePages) == shown;
      }
      if surface != 0 && surfacePages != 0 {
        FreeSurface(start);
      } else {
        assert shown == [];
      }
    }

    /** Gives back the endpoint, the tables and every data page; the process is blank afterwards. */
    method Release(ghost start: set<nat>)
      requires space.mem == mem && space.Holding() && start <= mem.pmm.managed && surfacePages <= SURFACE_PAGES
      requires Ledger(start, mem.pmm.Free(), space.tablePages, Data())
      requires endpoints.Valid() && endpoint < 0x1_0000_0000_0000_0000
      modifies this, space, mem.pmm, mem.pmm.usable, mem.pmm.used, endpoints
      ensures mem.Valid() && mem.pmm.managed == old(mem.pmm.managed) && mem.pmm.Free() == start
      ensures space.root == 0 && space.tablePages == [] && Data() == [] && endpoint == 0 && placed == []
      ensures endpoints.Valid()
      ensures old(endpoint) == 0 ==> endpoints.slots == old(endpoints.slots)
      ensures old(endpoint) != 0 ==> Ipc.Closed(old(endpoints.slots), endpoints.slots, old(endpoint))
    {
      if endpoint != 0 { CloseEndpoint(); }
      ReleasePages(start);
      pid, appId, image, stack, surface, surfacePages, endpoint, entry, placed := 0, 0, [], 0, 0, 0, 0, 0, [];
    }

    method CloseEndpoint()
      requires endpoints.Valid() && endpoint < 0x1_0000_0000_0000_0000
      modifies endpoints
      ensures endpoints.Valid() && Ipc.Closed(old(endpoints.slots), endpoints.slots, endpoint)
    {
      var done := endpoints.Destroy(endpoint);
    }

    /** The tables go first, then the data pages. */
    method ReleasePages(ghost start: set<nat>)
      requires space.mem == mem && space.Holding() && start <= mem.pmm.managed && surfacePages <= SURFACE_PAGES
      requires Ledger(start, mem.pmm.Free(), space.tablePages, Data())
      modifies space, mem.pmm, mem.pmm.usable, mem.pmm.used
      ensures mem.Valid() && mem.pmm.managed == old(mem.pmm.managed) && mem.pmm.Free() == start
      ensures space.root == 0 && space.tablePages == []
    {
      space.Destroy();
      assert Unwinding(start, mem.pmm.managed, mem.pmm.Free(), Data());
      FreeData(start);
    }

    ghost function Now(): Snapshot
      reads this`stack, this`surface, this`surfacePages, this`image, this`placed, space, mem, mem.pmm
    {
      Snapshot(mem.words, mem.bytes, mem.pmm.Free(), space.tablePages, Data(), space.root, space.nx, placed)
    }

    /** Between the steps of a load that began with the free pages `start`, the words `w` and the bytes `b`. */
    ghost predicate Loading(start: set<nat>, w: Words, b: map<nat, seq<nat>>)
      reads this`stack, this`surface, this`surfacePages, this`image, this`placed, space, mem, mem.pmm, mem.pmm.usable,
        mem.pmm.used
    {
      Load(start, w, b, 3)
    }

    /** Loading, n steps away from its body. */
    ghost predicate Load(start: set<nat>, w: Words, b: map<nat, seq<nat>>, n: nat)
      reads this`stack, this`surface, this`surfacePages, this`image, this`placed, space, mem, mem.pmm, mem.pmm.usable,
        mem.pmm.used
      decreases n, start
    {
      if n > 0 then Load(start, w, b, n - 1)
      else
        && space.mem == mem && space.Valid() && space.root != 0 && start <= mem.pmm.managed
        && surfacePages <= SURFACE_PAGES
        && Books(start, w, b, Now(), 3)
    }

    lemma Open(start: set<nat>, w: Words, b: map<nat, seq<nat>>)
      ensures Loading(start, w, b) <==> Load(start, w, b, 0)
    {
      assert Load(start, w, b, 1) == Load(start, w, b, 0);
      assert Load(start, w, b, 2) == Load(start, w, b, 1);
    }

    lemma Close(start: set<nat>, w: Words, b: map<nat, seq<nat>>)
      requires space.mem == mem && space.Valid() && space.root != 0 && start <= mem.pmm.managed
      requires surfacePages <= SURFACE_PAGES && Books(start, w, b, Now(), 3)
      ensures Loading(start, w, b)
    {
      Open(start, w, b);
    }

    ghost function FreePages(): nat
      reads mem.pmm
    {
      |mem.pmm.Free()|
    }

    /** A page of memory for the process. */
    lemma DataFrame(start: set<nat>, w: Words, b: map<nat, seq<nat>>, f: nat)
      requires Loading(start, w, b) && f in Data()
      ensures f % 4096 == 0
    {
      Open(start, w, b);
      Unfold(start, w, b, Now());
    }

    /** What Loading says of the space and of memory. */
    lemma LoadingSpace(start: set<nat>, w: Words, b: map<nat, seq<nat>>)
      requires Loading(start, w, b)
      ensures space.mem == mem && space.Valid() && space.root != 0 && space.userBase == USER_BASE && mem.Valid()
      ensures |space.Sites()| == |space.tablePages|
      ensures forall v: Vpn :: UserResolve(mem.words, space.root, v) == Lookup(placed, space.nx, v)
    {
      Open(start, w, b);
      Unfold(start, w, b, Now());
      space.OpenSpace();
    }

    /** One more image page, filled with file bytes; 0 exactly when memory is exhausted. */
    method TakePage(file: seq<Byte>, from: nat, amount: nat, ghost start: set<nat>, ghost w: Words,
        ghost b: map<nat, seq<nat>>)
      returns (f: nat)
      requires Loading(start, w, b) && from + amount <= |file| && amount <= 4096
      modifies this`image, mem`bytes, mem.pmm, mem.pmm.usable, mem.pmm.used
      ensures Loading(start, w, b) && mem.pmm.managed == old(mem.pmm.managed)
      ensures f == 0 <==> old(FreePages()) == 0
      ensures f == 0 ==> FreePages() == 0 && image == old(image)
      ensures f != 0 ==> FreePages() == old(FreePages()) - 1
      ensures f != 0 ==> image == old(image) + [f] && f in mem.bytes && mem.bytes[f] == PageBytes(file, from, amount)
      ensures f != 0 ==> Unplaced(placed, f)
    {
      LoadingSpace(start, w, b);
      Open(start, w, b);
      f := mem.pmm.AllocPage();
      if f == 0 {
        assert space.Valid() by { SpaceKept(); }
        Open(start, w, b);
        return;
      }
      image := image + [f];
      assert Data() == old(Data()) + [f];
      FillPage(f, file, from, amount);
      TakeKeeps(start, w, b, old(Now()), Now(), f, PageBytes(file, from, amount));
      assert space.Valid() by { SpaceKept(); }
      Open(start, w, b);
    }

    method FillPage(f: nat, file: seq<Byte>, from: nat, amount: nat)
      requires from + amount <= |file| && amount <= 4096
      modifies mem`bytes
      ensures mem.bytes == old(mem.bytes)[f := PageBytes(file, from, amount)]
    {
      mem.bytes := mem.bytes[f := PageBytes(file, from, 0)];
      for i := 0 to amount
        invariant mem.bytes == old(mem.bytes)[f := PageBytes(file, from, i)]
      {
        CopyByte(file, from, i);
        mem.bytes := mem.bytes[f := mem.bytes[f][i := file[from + i]]];
      }
    }

    /** Fewer free pages leave the space as it is. */
    twostate lemma SpaceKept()
      requires old(space.Valid()) && unchanged(space) && space.mem == mem && mem.Valid() && mem.words == old(mem.words)
      requires mem.pmm.managed == old(mem.pmm.managed) && mem.pmm.Free() <= old(mem.pmm.Free())
      ensures space.Valid()
    {
      assert old(space.ValidIn(1)) == old(space.ValidIn(0));
      assert old(space.ValidIn(2)) == old(space.ValidIn(1));
      space.OpenSpace();
    }

    /** What mapping a data page at a vacant address may rely on. */
    lemma VacantPlace(start: set<nat>, w: Words, b: map<nat, seq<nat>>, va: nat, f: nat)
      requires Loading(start, w, b) && f in Data() && UserPage(va) && Vacant(placed, va)
      ensures space.mem == mem && space.Valid() && space.Mappable(va, f) && space.Map(va) == None
      ensures |space.Sites()| == |space.tablePages|
    {
      LoadingSpace(start, w, b);
      DataFrame(start, w, b, f);
      VacantLookup(placed, space.nx, va);
    }

    method MapFrame(va: nat, f: nat, writable: bool, executable: bool, ghost p: Placement) returns (ok: bool)
      requires space.mem == mem && space.Valid() && space.Mappable(va, f) && space.Map(va) == None
      requires p.va == va && p.frame == f && p.writable == writable && p.executable == executable
      modifies space`nodes, space`tablePages, mem, mem.pmm, mem.pmm.usable, mem.pmm.used
      ensures space.Valid() && mem.pmm.managed == old(mem.pmm.managed) && mem.bytes == old(mem.bytes)
      ensures Acquired(old(mem.words), mem.words, old(space.tablePages), space.tablePages,
                       old(mem.pmm.Free()), mem.pmm.Free())
      ensures InUse(Elements(space.tablePages), mem.pmm.managed, mem.pmm.Free())
      ensures FromBelow(old(mem.pmm.Free()), mem.pmm.Free())
      ensures ok <==> Affords(old(space.Sites()), |old(space.tablePages)|, old(FreePages()), Split(va))
      ensures ok ==> UserMapped(old(mem.words), mem.words, space.root, Split(va), MappingOf(p, space.nx))
      ensures ok ==> space.Sites() == old(space.Sites()) + Path(Split(va))
      ensures ok ==> FreePages() == old(FreePages()) - Lacking(old(space.Sites()), Split(va))
      ensures !ok ==> SameUser(old(mem.words), mem.words, space.root)
    {
      ok := space.MapPage(va, f, writable, executable);
      AcquiredBelow(old(mem.words), mem.words, old(space.tablePages), space.tablePages,
                    old(mem.pmm.Free()), mem.pmm.Free());
      space.OpenSpace();
    }

    /** Maps a data page at a vacant address; it fails exactly when the tables lacking on the way cannot be had. */
    method Place(va: nat, f: nat, writable: bool, executable: bool, ghost start: set<nat>, ghost w: Words,
        ghost b: map<nat, seq<nat>>)
      returns (ok: bool)
      requires Loading(start, w, b) && f in Data() && f in mem.bytes && |mem.bytes[f]| == 4096
      requires UserPage(va) && Vacant(placed, va) && Unplaced(placed, f)
      modifies this`placed, space`nodes, space`tablePages, mem, mem.pmm, mem.pmm.usable, mem.pmm.used
      ensures Loading(start, w, b) && mem.pmm.managed == old(mem.pmm.managed) && mem.bytes == old(mem.bytes)
      ensures ok <==> Affords(old(space.Sites()), |old(space.Sites())|, old(FreePages()), Split(va))
      ensures ok ==> placed == old(placed) + [Placement(va, f, writable, executable, mem.bytes[f])]
      ensures ok ==> space.Sites() == old(space.Sites()) + Path(Split(va))
      ensures ok ==> FreePages() == old(FreePages()) - Lacking(old(space.Sites()), Split(va))
      ensures !ok ==> placed == old(placed)
      ensures FromBelow(old(mem.pmm.Free()), mem.pmm.Free())
    {
      ghost var p := Placement(va, f, writable, executable, mem.bytes[f]);
      VacantPlace(start, w, b, va, f);
      Open(start, w, b);
      ok := MapFrame(va, f, writable, executable, p);
      if ok {
        placed := placed + [p];
        PlaceKeeps(start, w, b, old(Now()), Now(), mem.pmm.managed, p);
      } else {
        GrowKeeps(start, w, b, old(Now()), Now(), mem.pmm.managed);
      }
      Close(start, w, b);
    }

    /** The page loop for one segment: it fails exactly when the pages and a table for them cannot be had. */
    method LoadSegment(file: seq<Byte>, s: Segment, ghost start: set<nat>, ghost w: Words, ghost b: map<nat, seq<nat>>)
      returns (ok: bool, ghost frames: seq<nat>)
      requires Loading(start, w, b) && SegmentOk(s, |file|, IMAGE_MIN, IMAGE_MAX)
      requires |image| + s.pageCount <= MAX_IMAGE_PAGES
      requires Based(space.Sites()) && ClearFor(placed, s)
      modifies this`image, this`placed, space`nodes, space`tablePages, mem, mem.pmm, mem.pmm.usable, mem.pmm.used
      ensures Loading(start, w, b) && mem.pmm.managed == old(mem.pmm.managed)
      ensures ok <==> old(FreePages()) >= ImageCost(IMAGE_TABLE in old(space.Sites()), s.pageCount)
      ensures ok ==>
        |frames| == s.pageCount && image == old(image) + frames && placed == old(placed) + SegmentPlan(file, s, frames)
      ensures ok ==> Based(space.Sites()) && IMAGE_TABLE in space.Sites()
      ensures ok ==> FreePages() == old(FreePages()) - ImageCost(IMAGE_TABLE in old(space.Sites()), s.pageCount)
    {
      frames := [];
      var copied := 0;
      ghost var table := IMAGE_TABLE in space.Sites();
      assert placed == old(placed) + SegmentPlan(file, s, []);
      for page := 0 to s.pageCount
        invariant Loading(start, w, b) && mem.pmm.managed == old(mem.pmm.managed)
        invariant copied == Min(4096 * page, s.fileSize) && Based(space.Sites())
        invariant IMAGE_TABLE in space.Sites() <==> table || page > 0
        invariant FreePages() == old(FreePages()) - ImageCost(table, page)
        invariant |frames| == page && image == old(image) + frames
        invariant placed == old(placed) + SegmentPlan(file, s, frames)
      {
        var amount := Min(4096, s.fileSize - copied);
        assert Vacant(placed, PageAddress(s, page)) by { SegmentVacant(old(placed), file, s, frames); }
        var f := LoadPage(file, s, page, copied, amount, start, w, b);
        CostMore(table, page, s.pageCount);
        if f == 0 { return false, frames; }
        assert placed == old(placed) + SegmentPlan(file, s, frames + [f]) && image == old(image) + (frames + [f]) by {
          SegmentPlanMore(file, s, frames, f);
          Regroup(old(placed), SegmentPlan(file, s, frames), [PagePlan(file, s, page, f)]);
          Regroup(old(image), frames, [f]);
        }
        frames := frames + [f];
        copied := copied + amount;
      }
      return true, frames;
    }

    method LoadPage(file: seq<Byte>, s: Segment, page: nat, copied: nat, amount: nat, ghost start: set<nat>,
        ghost w: Words, ghost b: map<nat, seq<nat>>)
      returns (f: nat)
      requires Loading(start, w, b) && SegmentOk(s, |file|, IMAGE_MIN, IMAGE_MAX) && page < s.pageCount
      requires copied == Min(4096 * page, s.fileSize)
      requires amount == Min(4096, s.fileSize - copied) && |image| < MAX_IMAGE_PAGES
      requires Based(space.Sites()) && Vacant(placed, PageAddress(s, page))
      modifies this`image, this`placed, space`nodes, space`tablePages, mem, mem.pmm, mem.pmm.usable, mem.pmm.used
      ensures Loading(start, w, b) && mem.pmm.managed == old(mem.pmm.managed)
      ensures f != 0 <==> old(FreePages()) >= ImageCost(IMAGE_TABLE in old(space.Sites()), 1)
      ensures f != 0 ==> FreePages() == old(FreePages()) - ImageCost(IMAGE_TABLE in old(space.Sites()), 1)
      ensures f != 0 ==> Based(space.Sites()) && IMAGE_TABLE in space.Sites()
      ensures f != 0 ==> image == old(image) + [f] && placed == old(placed) + [PagePlan(file, s, page, f)]
    {
      ImagePage(s, |file|, page, space.Sites());
      f := TakePage(file, s.fileOffset + copied, amount, start, w, b);
      if f == 0 { return; }
      assert f in Data();
      var ok := Place(PageAddress(s, page), f, Writable(s.flags), Executable(s.flags), start, w, b);
      if !ok { return 0; }
    }

    /** The kernel has tables and leaves the slot of user addresses free. */
    ghost predicate Hosts(kernel: KernelSpace)
      reads kernel, mem
    {
      kernel.root != 0 && P !in Entry(mem.words, kernel.root, USER_SLOT).bits
    }

    /** A fresh space, and nothing placed in it. */
    method Begin(kernel: KernelSpace) returns (ok: bool)
      requires space.mem == mem && space.Valid() && space.root == 0 && kernel.mem == mem && kernel.Valid()
      modifies this`image, this`stack, this`surface, this`surfacePages, this`endpoint, this`entry, this`placed
      modifies space, mem, mem.pmm, mem.pmm.usable, mem.pmm.used
      ensures space.Valid() && mem.pmm.managed == old(mem.pmm.managed)
      ensures ok <==> old(Hosts(kernel)) && old(FreePages()) >= 1
      ensures ok ==> Loading(old(mem.pmm.Free()), old(mem.words), old(mem.bytes))
      ensures ok ==> image == [] && placed == [] && stack == surface == surfacePages == endpoint == 0
      ensures ok ==>
        space.Sites() == {Root} && FreePages() == old(FreePages()) - 1 && FromBelow(old(mem.pmm.Free()), mem.pmm.Free())
      ensures !ok ==> space.root == 0 && Data() == [] && endpoint == 0 && mem.pmm.Free() == old(mem.pmm.Free())
      ensures !ok ==> Outside(old(mem.words), mem.words, old(mem.bytes), mem.bytes, old(mem.pmm.Free()))
    {
      Reset();
      ok := space.Create(kernel);
      if ok {
        assert FreePages() == old(FreePages()) - 1 && old(mem.pmm.Free()) <= mem.pmm.managed;
        Begun(old(mem.pmm.Free()), old(mem.words), old(mem.bytes), kernel.root);
      }
    }

    method Reset()
      modifies this`image, this`stack, this`surface, this`surfacePages, this`endpoint, this`entry, this`placed
      ensures image == [] && placed == [] && Data() == []
      ensures stack == surface == surfacePages == endpoint == entry == 0
    {
      image, stack, surface, surfacePages, endpoint, entry, placed := [], 0, 0, 0, 0, 0, [];
    }

    lemma Begun(start: set<nat>, w: Words, b: map<nat, seq<nat>>, source: nat)
      requires space.mem == mem && space.Valid() && space.root != 0 && start <= mem.pmm.managed && surfacePages == 0
      requires Data() == [] && placed == [] && space.tablePages == [space.root] && mem.bytes == b
      requires space.root % 4096 == 0 && space.root / 4096 in start && mem.pmm.Free() == start - {space.root / 4096}
      requires Copied(w, mem.words, space.root, source, 512)
      requires forall v: Vpn :: UserResolve(mem.words, space.root, v) == None
      ensures Loading(start, w, b)
    {
      BeginKeeps(start, w, b, Now(), source);
      Open(start, w, b);
    }

    /** A page for the stack and the tables to it. */
    method PrepareStack(ghost start: set<nat>, ghost w: Words, ghost b: map<nat, seq<nat>>) returns (ok: bool)
      requires Loading(start, w, b) && image == [] && placed == [] && stack == surface == surfacePages == 0
      requires space.Sites() == {Root}
      modifies this`stack, this`placed, space`nodes, space`tablePages, mem, mem.pmm, mem.pmm.usable, mem.pmm.used
      ensures Loading(start, w, b) && mem.pmm.managed == old(mem.pmm.managed)
      ensures ok <==> old(FreePages()) >= 4
      ensures ok ==> stack != 0 && placed == [StackPlan(stack)] && space.Sites() == BASE_TABLES
      ensures ok ==> FreePages() == old(FreePages()) - 4 && FromBelow(old(mem.pmm.Free()), mem.pmm.Free())
    {
      var f := TakeStack(start, w, b);
      if f == 0 { return false; }
      ghost var free := mem.pmm.Free();
      StackRegion();
      ok := Place(USER_BASE + STACK_OFFSET, f, true, false, start, w, b);
      FromBelowTrans(old(mem.pmm.Free()), free, mem.pmm.Free());
    }

    method TakeStack(ghost start: set<nat>, ghost w: Words, ghost b: map<nat, seq<nat>>) returns (f: nat)
      requires Loading(start, w, b) && image == [] && placed == [] && stack == surface == surfacePages == 0
      modifies this`stack, mem`bytes, mem.pmm, mem.pmm.usable, mem.pmm.used
      ensures Loading(start, w, b) && mem.pmm.managed == old(mem.pmm.managed) && f == stack
      ensures f == 0 <==> old(FreePages()) == 0
      ensures f != 0 ==> f in Data() && f in mem.bytes && mem.bytes[f] == ZERO_PAGE
      ensures f != 0 ==> FreePages() == old(FreePages()) - 1 && FromBelow(old(mem.pmm.Free()), mem.pmm.Free())
    {
      LoadingSpace(start, w, b);
      Open(start, w, b);
      f := mem.pmm.AllocPage();
      if f == 0 {
        assert space.Valid() by { SpaceKept(); }
        Open(start, w, b);
        return;
      }
      stack := f;
      assert Data() == old(Data()) + [f];
      mem.bytes := mem.bytes[f := ZERO_PAGE];
      TakeKeeps(start, w, b, old(Now()), Now(), f, ZERO_PAGE);
      assert space.Valid() by { SpaceKept(); }
      Open(start, w, b);
    }

    method AllocRun(n: nat) returns (f: nat)
      requires mem.Valid() && n > 0
      modifies mem.pmm, mem.pmm.usable, mem.pmm.used
      ensures mem.Valid() && mem.pmm.managed == old(mem.pmm.managed)
      ensures f != 0 <==> HasRun(old(mem.pmm.Free()), n)
      ensures f == 0 ==> mem.pmm.Free() == old(mem.pmm.Free())
      ensures f != 0 ==> f % 4096 == 0 && RunAt(old(mem.pmm.Free()), f / 4096, n)
      ensures f != 0 ==>
        mem.pmm.Free() == old(mem.pmm.Free()) - Span(f / 4096, n) && FreePages() == old(FreePages()) - n
    {
      f := mem.pmm.AllocPages(n);
      if f != 0 { RunTaken(old(mem.pmm.Free()), f / 4096, n); }
    }

    method TakeSurface(ghost start: set<nat>, ghost w: Words, ghost b: map<nat, seq<nat>>) returns (ok: bool)
      requires Loading(start, w, b) && image == [] && surface == 0
      modifies this`surface, this`surfacePages, mem.pmm, mem.pmm.usable, mem.pmm.used
      ensures Loading(start, w, b) && mem.pmm.managed == old(mem.pmm.managed) && surfacePages == SURFACE_PAGES
      ensures ok <==> HasRun(old(mem.pmm.Free()), SURFACE_PAGES)
      ensures ok ==> surface != 0 && FreePages() == old(FreePages()) - SURFACE_PAGES
    {
      LoadingSpace(start, w, b);
      Open(start, w, b);
      surfacePages := SURFACE_PAGES;
      var f := AllocRun(surfacePages);
      assert space.Valid() by { SpaceKept(); }
      if f == 0 { Open(start, w, b); return false; }
      surface := f;
      SurfaceTaken(stack, old(surfacePages), f);
      RunKeeps(start, w, b, old(Now()), Now(), f, 18);
      Open(start, w, b);
      return true;
    }

    /** The surface pages go into one 2 MiB region, so they need one table. */
    method PlaceSurface(ghost start: set<nat>, ghost w: Words, ghost b: map<nat, seq<nat>>) returns (ok: bool)
      requires Loading(start, w, b) && surface != 0 && surfacePages == SURFACE_PAGES && stack != 0 && image == []
      requires placed == [StackPlan(stack)] && space.Sites() == BASE_TABLES
      modifies this`placed, space`nodes, space`tablePages, mem, mem.pmm, mem.pmm.usable, mem.pmm.used
      ensures Loading(start, w, b) && mem.pmm.managed == old(mem.pmm.managed)
      ensures ok <==> old(FreePages()) >= 1
      ensures ok ==> placed == BasePlan(stack, surface, SURFACE_PAGES)
      ensures ok ==> space.Sites() == BASE_TABLES + {SURFACE_TABLE} && FreePages() == old(FreePages()) - 1
    {
      for page := 0 to surfacePages
        invariant Loading(start, w, b) && mem.pmm.managed == old(mem.pmm.managed)
        invariant placed == BasePlan(stack, surface, page)
        invariant space.Sites() == SurfaceTables(page > 0) &&
          FreePages() == old(FreePages()) - if page > 0 then 1 else 0
        invariant page > 0 ==> old(FreePages()) >= 1
      {
        ok := PlaceSurfacePage(page, start, w, b);
        if !ok { return; }
      }
      return true;
    }

    method ClearSurfacePage(page: nat, ghost start: set<nat>, ghost w: Words, ghost b: map<nat, seq<nat>>)
      returns (f: nat)
      requires Loading(start, w, b) && surface != 0 && page < surfacePages && stack != 0 && image == []
      requires placed == BasePlan(stack, surface, page)
      modifies mem`bytes
      ensures Loading(start, w, b)
      ensures f == surface + 4096 * page && f in Data() && f in mem.bytes && mem.bytes[f] == ZERO_PAGE
      ensures Unplaced(placed, f)
    {
      LoadingSpace(start, w, b);
      Open(start, w, b);
      f := surface + 4096 * page;
      StackApart(start, w, b, Now(), stack, surface, surfacePages, page);
      PlanApart(stack, surface, page);
      mem.bytes := mem.bytes[f := ZERO_PAGE];
      assert f in Data() && f in mem.bytes && mem.bytes[f] == ZERO_PAGE;
      WriteKeeps(start, w, b, old(Now()), Now(), f, ZERO_PAGE);
      assert space.Valid() by { SpaceKept(); }
      assert Loading(start, w, b) by { Open(start, w, b); }
    }

    method PlaceSurfacePage(page: nat, ghost start: set<nat>, ghost w: Words, ghost b: map<nat, seq<nat>>)
      returns (ok: bool)
      requires Loading(start, w, b) && surface != 0 && page < surfacePages == SURFACE_PAGES && stack != 0 && image == []
      requires placed == BasePlan(stack, surface, page) && space.Sites() == SurfaceTables(page > 0)
      modifies this`placed, space`nodes, space`tablePages, mem, mem.pmm, mem.pmm.usable, mem.pmm.used
      ensures Loading(start, w, b) && mem.pmm.managed == old(mem.pmm.managed)
      ensures ok <==> page > 0 || old(FreePages()) >= 1
      ensures ok ==> placed == BasePlan(stack, surface, page + 1) && space.Sites() == SurfaceTables(true)
      ensures ok ==> FreePages() == old(FreePages()) - if page > 0 then 0 else 1
    {
      var f := ClearSurfacePage(page, start, w, b);
      SurfaceVacant(stack, surface, page);
      SurfaceRegion(page);
      SurfaceLacking(page > 0, page);
      PlanGrows(stack, surface, page);
      ghost var p := SurfacePage(surface, page);
      assert p == Placement(USER_BASE + SURFACE_OFFSET + 4096 * page, f, true, false, mem.bytes[f]);
      ok := Place(USER_BASE + SURFACE_OFFSET + 4096 * page, f, true, false, start, w, b);
    }

    /** The endpoint table is `es` with, once the process has one, its endpoint added. */
    ghost predicate Enlisted(es: seq<Ipc.Endpoint>)
      reads this`endpoint, this`pid, endpoints
    {
      && Ipc.WellFormed(es) && endpoints.Valid() && endpoint < 0x1_0000_0000_0000_0000
      && if endpoint == 0 then endpoints.slots == es else Ipc.Created(es, endpoints.slots, pid, endpoint)
    }

    /** The process holds nothing. */
    ghost predicate Blank()
      reads this, space
    {
      space.root == 0 && space.tablePages == [] && Data() == [] && endpoint == 0
    }

    /** Everything a load took is back, and no frame or endpoint in use has changed. */
    ghost predicate Returned(start: set<nat>, w: Words, b: map<nat, seq<nat>>, es: seq<Ipc.Endpoint>)
      reads this, space, mem, mem.pmm, mem.pmm.usable, mem.pmm.used, endpoints
    {
      && mem.Valid() && mem.pmm.Free() == start && Blank()
      && Outside(w, mem.words, b, mem.bytes, start) && endpoints.Valid() && Ipc.SameInUse(es, endpoints.slots)
    }

    /** Every failure of a load gives back all it took. */
    method Abandon(ghost start: set<nat>, ghost w: Words, ghost b: map<nat, seq<nat>>, ghost es: seq<Ipc.Endpoint>)
      requires Loading(start, w, b) && Enlisted(es)
      modifies this, space, mem.pmm, mem.pmm.usable, mem.pmm.used, endpoints
      ensures mem.pmm.managed == old(mem.pmm.managed) && Returned(start, w, b, es)
    {
      Open(start, w, b);
      Unfold(start, w, b, Now());
      space.OpenSpace();
      if endpoint != 0 {
        ghost var pid0, slots, handle := pid, endpoints.slots, endpoint;
        Release(start);
        Ipc.CreateDestroy(es, slots, endpoints.slots, pid0, handle);
      } else {
        Release(start);
      }
    }

    /** The endpoint and the capabilities of an application: refused exactly when every endpoint is in use. */
    method Enlist() returns (ok: bool)
      requires endpoints.Valid() && endpoint == 0 && pid != 0 && appId != 0
      modifies this`endpoint, this`capabilities, endpoints
      ensures Enlisted(old(endpoints.slots))
      ensures ok <==> Ipc.SomeUnused(old(endpoints.slots))
      ensures ok <==> endpoint != 0
      ensures ok ==> capabilities.Valid() && Ready(capabilities.table, pid, appId, surface, endpoint)
    {
      endpoint := endpoints.Create(pid);
      if endpoint == 0 { return false; }
      Ipc.HandleBound(old(endpoints.slots), endpoints.slots, pid, endpoint);
      ok := GrantAll();
    }

    /** The four grants, which a fresh table never refuses. */
    method GrantAll() returns (ok: bool)
      requires pid != 0
      modifies this`capabilities
      ensures ok && capabilities.Valid() && Ready(capabilities.table, pid, appId, surface, endpoint)
    {
      var table := new Capabilities.CapabilityTable(pid);
      capabilities := table;
      var clock := GrantSlot(table, 0, Capabilities.CLOCK, {Capabilities.READ}, 0);
      var input := GrantSlot(table, 1, Capabilities.INPUT, {Capabilities.READ, Capabilities.WAIT}, appId);
      var screen := GrantSlot(table, 2, Capabilities.SURFACE, {Capabilities.PRESENT}, surface);
      var ipc := GrantSlot(table, 3, Capabilities.IPC, {Capabilities.RECEIVE}, endpoint);
      ok := clock != 0 && input != 0 && screen != 0 && ipc != 0;
    }

    /** A proper grant to a table that is filled up to slot `k` goes there. */
    method GrantSlot(table: Capabilities.CapabilityTable, ghost k: nat, kind: nat, rights: set<nat>, target: nat)
      returns (handle: nat)
      requires Capabilities.FilledTo(table.table, k) && k < Capabilities.SLOTS && table.table.principal != 0
      requires rights != {} && rights <= Capabilities.AllowedRights(kind)
      modifies table
      ensures handle != 0 && Capabilities.FilledTo(table.table, k + 1)
      ensures Capabilities.Holds(table.table, k, kind, rights, target)
      ensures table.table.principal == old(table.table.principal)
      ensures forall s :: 0 <= s < k ==> table.table.entries[s] == old(table.table.entries)[s]
    {
      handle := table.Grant(kind, rights, target);
      Capabilities.GrantNext(old(table.table), table.table, k, kind, rights, target, handle);
    }

    /** A fresh root is all that was taken so far, the lowest page. */
    ghost predicate Rooted(start: set<nat>)
      reads this, space, mem.pmm
    {
      && image == [] && placed == [] && stack == surface == surfacePages == endpoint == 0
      && space.Sites() == {Root} && FromBelow(start, mem.pmm.Free()) && |start| == FreePages() + 1
    }

    /** Stack and surface of a new process. */
    method PrepareMemory(ghost start: set<nat>, ghost w: Words, ghost b: map<nat, seq<nat>>) returns (ok: bool)
      requires Loading(start, w, b) && Rooted(start)
      modifies this`stack, this`surface, this`surfacePages, this`placed
      modifies space`nodes, space`tablePages, mem, mem.pmm, mem.pmm.usable, mem.pmm.used
      ensures Loading(start, w, b) && mem.pmm.managed == old(mem.pmm.managed)
      ensures ok <==> Enough(start, appId, 0)
      ensures ok ==>
        placed == BasePlan(stack, surface, surfacePages) && surfacePages == if appId != 0 then SURFACE_PAGES else 0
      ensures ok && appId != 0 ==> surface != 0
      ensures ok ==>
        Based(space.Sites()) && IMAGE_TABLE !in space.Sites() && FreePages() == |start| - PagesNeeded(appId, 0)
    {
      ghost var free := mem.pmm.Free();
      ok := PrepareStack(start, w, b);
      if !ok || appId == 0 { return; }
      FromBelowTrans(start, free, mem.pmm.Free());
      RunLeft(start, mem.pmm.Free(), 5, SURFACE_PAGES);
      ok := TakeSurface(start, w, b);
      if !ok { return; }
      ok := PlaceSurface(start, w, b);
    }

    /** What prepare_process needs besides memory. */
    ghost predicate Admits(app: nat, es: seq<Ipc.Endpoint>) { app != 0 ==> Ipc.SomeUnused(es) }

    method Furnish(ghost start: set<nat>, ghost w: Words, ghost b: map<nat, seq<nat>>, ghost es: seq<Ipc.Endpoint>)
      returns (ok: bool)
      requires Loading(start, w, b) && Enlisted(es) && pid != 0 && Rooted(start)
      modifies this, space, mem, mem.pmm, mem.pmm.usable, mem.pmm.used, endpoints
      ensures mem.pmm.managed == old(mem.pmm.managed)
      ensures ok <==> Enough(start, old(appId), 0) && Admits(old(appId), es)
      ensures ok ==> Loading(start, w, b) && Enlisted(es) && image == [] && Furnished(old(pid), old(appId))
      ensures ok ==> FreePages() == |start| - PagesNeeded(old(appId), 0)
      ensures !ok ==> Returned(start, w, b, es)
    {
      ok := PrepareMemory(start, w, b);
      if ok && appId != 0 { ok := Enlist(); }
      if !ok { Abandon(start, w, b, es); }
    }

    /** Stack, surface, endpoint and capabilities are in place, and no table for an image yet. */
    ghost predicate Furnished(id: nat, app: nat)
      reads this, capabilities, space
    {
      && pid == id && appId == app && surfacePages == (if app != 0 then SURFACE_PAGES else 0)
      && placed == BasePlan(stack, surface, surfacePages) && (app != 0 ==> surface != 0)
      && Based(space.Sites()) && IMAGE_TABLE !in space.Sites()
      && (app != 0 ==> endpoint != 0 && Ready(capabilities.table, id, app, surface, endpoint))
    }

    /** What the process was prepared for, and that it has what an application needs. */
    ghost predicate Equipped(id: nat, app: nat)
      reads this, capabilities
    {
      && pid == id && appId == app && surfacePages == (if app != 0 then SURFACE_PAGES else 0)
      && (app != 0 ==> surface != 0 && endpoint != 0 && Ready(capabilities.table, id, app, surface, endpoint))
    }

    /** The process is blank, and it shares memory and endpoints with a sound kernel. */
    ghost predicate Idle(kernel: KernelSpace)
      reads this, space, kernel, mem, mem.pmm, mem.pmm.usable, mem.pmm.used, endpoints
    {
      IdleIn(kernel, 3)
    }

    /** Idle, n steps away from its body. */
    ghost predicate IdleIn(kernel: KernelSpace, n: nat)
      reads this, space, kernel, mem, mem.pmm, mem.pmm.usable, mem.pmm.used, endpoints
      decreases n, this
    {
      if n > 0 then IdleIn(kernel, n - 1)
      else space.mem == mem && space.Valid() && Blank() && kernel.mem == mem && kernel.Valid() && endpoints.Valid()
    }

    lemma OpenIdle(kernel: KernelSpace)
      ensures Idle(kernel) <==> IdleIn(kernel, 0)
    {
      assert IdleIn(kernel, 1) == IdleIn(kernel, 0);
      assert IdleIn(kernel, 2) == IdleIn(kernel, 1);
    }

    /** What a load of `pages` image pages needs of its caller and of the machine. */
    ghost predicate Welcome(kernel: KernelSpace, id: nat, app: nat, pages: nat)
      reads kernel, mem, mem.pmm, endpoints
    {
      id != 0 && Hosts(kernel) && Enough(mem.pmm.Free(), app, pages) && Admits(app, endpoints.slots)
    }

    /** A process ready to take its image, or nothing at all; the latter exactly when something needed is missing. */
    method Prepare(kernel: KernelSpace, id: nat, app: nat) returns (ok: bool)
      requires Idle(kernel)
      modifies this, space, mem, mem.pmm, mem.pmm.usable, mem.pmm.used, endpoints
      ensures mem.pmm.managed == old(mem.pmm.managed)
      ensures ok <==> old(Welcome(kernel, id, app, 0))
      ensures ok ==> Loading(old(mem.pmm.Free()), old(mem.words), old(mem.bytes)) && Enlisted(old(endpoints.slots))
      ensures ok ==> image == [] && Furnished(id, app) && FreePages() == old(FreePages()) - PagesNeeded(app, 0)
      ensures !ok ==> Returned(old(mem.pmm.Free()), old(mem.words), old(mem.bytes), old(endpoints.slots))
    {
      IdleReturned(kernel);
      if id == 0 { return false; }
      OpenIdle(kernel);
      pid, appId := id, app;
      ok := Begin(kernel);
      if !ok {
        assert mem.Valid() by { space.OpenSpace(); }
        assert space.tablePages == [] by { space.OpenSpace(); }
        return;
      }
      ok := Furnish(old(mem.pmm.Free()), old(mem.words), old(mem.bytes), old(endpoints.slots));
    }

    lemma IdleReturned(kernel: KernelSpace)
      requires Idle(kernel)
      ensures Returned(mem.pmm.Free(), mem.words, mem.bytes, endpoints.slots)
    {
      OpenIdle(kernel);
      space.OpenSpace();
    }

    /** The segment loop. */
    method LoadImage(file: seq<Byte>, ss: seq<Segment>, ghost start: set<nat>, ghost w: Words,
        ghost b: map<nat, seq<nat>>)
      returns (ok: bool)
      requires Loading(start, w, b) && Fits(file, ss) && image == [] && surfacePages <= SURFACE_PAGES
      requires placed == BasePlan(stack, surface, surfacePages) && Based(space.Sites()) && IMAGE_TABLE !in space.Sites()
      modifies this`image, this`placed, space`nodes, space`tablePages, mem, mem.pmm, mem.pmm.usable, mem.pmm.used
      ensures Loading(start, w, b) && mem.pmm.managed == old(mem.pmm.managed)
      ensures ok <==> old(FreePages()) >= ImageCost(false, SumPages(ss))
      ensures ok ==>
        |image| == SumPages(ss) && placed == BasePlan(stack, surface, surfacePages) + ImagePlan(file, ss, image)
    {
      ghost var base := BasePlan(stack, surface, surfacePages);
      assert ss[..0] == [] && SumPages([]) == 0;
      assert ImagePlan(file, [], []) == [] && placed == base + [];
      for i := 0 to |ss|
        invariant Loading(start, w, b) && mem.pmm.managed == old(mem.pmm.managed)
        invariant InFile(file, ss[..i]) && |image| == SumPages(ss[..i])
        invariant placed == base + ImagePlan(file, ss[..i], image)
        invariant Based(space.Sites()) && (IMAGE_TABLE in space.Sites() <==> |image| > 0)
        invariant FreePages() == old(FreePages()) - ImageCost(false, |image|)
      {
        ghost var before := image;
        ghost var frames;
        assert ss[i] in ss;
        RoomFor(ss, i);
        ImageClear(stack, surface, surfacePages, file, ss, i, image);
        ok, frames := LoadSegment(file, ss[i], start, w, b);
        if !ok { return; }
        ImagePlanMore(file, ss, i, before, frames);
        Regroup(base, ImagePlan(file, ss[..i], before), SegmentPlan(file, ss[i], frames));
      }
      assert ss[..|ss|] == ss;
      return true;
    }

    /**
    load_elf_app: either a process whose space holds its stack, its surface and every page of the accepted
    image, or nothing taken at all. It succeeds exactly when the image is accepted, the process has an id, the
    kernel leaves the user slot free, the free pages suffice, and for an application an endpoint is unused; the
    limit of sixteen tables and a page mapped twice never stop it. (The page list of a process has sixteen
    entries; an image with a longer segment would pass the budget check.)
    */
    method LoadElf(kernel: KernelSpace, id: nat, app: nat, file: seq<Byte>) returns (ok: bool)
      requires Idle(kernel) && Loadable(file, 3)
      modifies this, space, mem, mem.pmm, mem.pmm.usable, mem.pmm.used, endpoints
      ensures mem.pmm.managed == old(mem.pmm.managed)
      ensures ok <==> old(Startable(kernel, id, app, file))
      ensures ok ==> Loading(old(mem.pmm.Free()), old(mem.words), old(mem.bytes)) && Enlisted(old(endpoints.slots))
      ensures ok ==> Showing(file) && Equipped(id, app)
      ensures !ok ==> Returned(old(mem.pmm.Free()), old(mem.words), old(mem.bytes), old(endpoints.slots))
    {
      IdleReturned(kernel);
      var ss, at;
      ok, ss, at := Inspect(file);
      if !ok { return; }
      ok := LoadSegments(kernel, id, app, file, ss, at);
      if ok { Described(file, ss, at); }
    }

    /** The image is accepted and the load has what it needs. */
    ghost predicate Startable(kernel: KernelSpace, id: nat, app: nat, file: seq<Byte>)
      reads kernel, mem, mem.pmm, endpoints
    {
      Good(file, 3) && Welcome(kernel, id, app, ImagePages(file, 3))
    }

    lemma Described(file: seq<Byte>, ss: seq<Segment>, at: nat)
      requires Describes(file, ss, at, 3) && Shows(file, ss) && entry == at
      ensures Showing(file)
    {
      OpenDescribes(file, ss, at);
      OpenShowing(file);
    }

    /** The image of the file is in place, and execution begins at its entry point. (Folded likewise.) */
    ghost predicate ShowingIn(file: seq<Byte>, n: nat)
      reads this`stack, this`surface, this`surfacePages, this`image, this`placed, this`entry
      decreases n, this
    {
      if n > 0 then ShowingIn(file, n - 1)
      else Accepted(file, IMAGE_MIN, IMAGE_MAX) && entry == EntryPoint(file) && Shows(file, Segments(file))
    }

    ghost predicate Showing(file: seq<Byte>)
      reads this`stack, this`surface, this`surfacePages, this`image, this`placed, this`entry
    {
      ShowingIn(file, 3)
    }

    lemma OpenShowing(file: seq<Byte>)
      ensures Showing(file) <==>
        Accepted(file, IMAGE_MIN, IMAGE_MAX) && entry == EntryPoint(file) && Shows(file, Segments(file))
    {
      assert ShowingIn(file, 1) == ShowingIn(file, 0);
      assert ShowingIn(file, 2) == ShowingIn(file, 1);
    }

    /** Loading once the image is known to be good. */
    method LoadSegments(kernel: KernelSpace, id: nat, app: nat, file: seq<Byte>, ss: seq<Segment>, at: nat)
      returns (ok: bool)
      requires Idle(kernel) && Fits(file, ss)
      modifies this, space, mem, mem.pmm, mem.pmm.usable, mem.pmm.used, endpoints
      ensures mem.pmm.managed == old(mem.pmm.managed)
      ensures ok <==> old(Welcome(kernel, id, app, SumPages(ss)))
      ensures ok ==> Loading(old(mem.pmm.Free()), old(mem.words), old(mem.bytes)) && Enlisted(old(endpoints.slots))
      ensures ok ==> entry == at && Shows(file, ss) && Equipped(id, app)
      ensures !ok ==> Returned(old(mem.pmm.Free()), old(mem.words), old(mem.bytes), old(endpoints.slots))
    {
      ok := Prepare(kernel, id, app);
      if !ok { return; }
      ok := Fill(file, ss, at, old(mem.pmm.Free()), old(mem.words), old(mem.bytes), old(endpoints.slots));
    }

    method Fill(file: seq<Byte>, ss: seq<Segment>, at: nat, ghost start: set<nat>, ghost w: Words,
        ghost b: map<nat, seq<nat>>, ghost es: seq<Ipc.Endpoint>)
      returns (ok: bool)
      requires Loading(start, w, b) && Enlisted(es) && image == [] && Fits(file, ss) && surfacePages <= SURFACE_PAGES
      requires placed == BasePlan(stack, surface, surfacePages) && Based(space.Sites()) && IMAGE_TABLE !in space.Sites()
      modifies this, space, mem, mem.pmm, mem.pmm.usable, mem.pmm.used, endpoints
      ensures mem.pmm.managed == old(mem.pmm.managed)
      ensures ok <==> old(FreePages()) >= ImageCost(false, SumPages(ss))
      ensures ok ==> Loading(start, w, b) && Enlisted(es) && entry == at && Shows(file, ss)
      ensures ok ==>
        unchanged(this`stack, this`surface, this`surfacePages, this`pid, this`appId, this`endpoint, this`capabilities)
      ensures !ok ==> Returned(start, w, b, es)
    {
      ok := LoadImage(file, ss, start, w, b);
      if ok { entry := at; } else { Abandon(start, w, b, es); }
    }

    /** The space maps the stack, the surface and the pages of the segments, and nothing else. */
    ghost predicate Shows(file: seq<Byte>, ss: seq<Segment>)
      reads this`stack, this`surface, this`surfacePages, this`image, this`placed
    {
      && Fits(file, ss) && |image| == SumPages(ss) && surfacePages <= SURFACE_PAGES
      && placed == BasePlan(stack, surface, surfacePages) + ImagePlan(file, ss, image)
    }

    /** load_flat_probe: the file as one read-only executable segment at the code address. */
    method LoadFlat(kernel: KernelSpace, id: nat, file: seq<Byte>) returns (ok: bool)
      requires Idle(kernel)
      modifies this, space, mem, mem.pmm, mem.pmm.usable, mem.pmm.used, endpoints
      ensures mem.pmm.managed == old(mem.pmm.managed)
      ensures ok <==> 0 < |file| <= 4096 * MAX_IMAGE_PAGES && old(Welcome(kernel, id, 0, (|file| + 4095) / 4096))
      ensures ok ==> Loading(old(mem.pmm.Free()), old(mem.words), old(mem.bytes)) && Enlisted(old(endpoints.slots))
      ensures ok ==> entry == IMAGE_MIN && Shows(file, [FlatSegment(file)]) && surfacePages == 0
      ensures !ok ==> Returned(old(mem.pmm.Free()), old(mem.words), old(mem.bytes), old(endpoints.slots))
    {
      IdleReturned(kernel);
      var pages := (|file| + 4095) / 4096;
      if pages == 0 || pages > MAX_IMAGE_PAGES { return false; }
      FlatPlan(file);
      ok := LoadSegments(kernel, id, 0, file, [FlatSegment(file)], IMAGE_MIN);
    }

    /** A placed page as the page tables and memory show it. */
    lemma SeesPlaced(start: set<nat>, w: Words, b: map<nat, seq<nat>>, p: Placement)
      requires Loading(start, w, b) && p in placed && mem.pmm.pageCount <= 0x100_0000_0000
      ensures space.mem == mem && UserResolve(mem.words, space.root, Split(p.va)) == Some(MappingOf(p, space.nx))
      ensures p.frame in mem.bytes && mem.bytes[p.frame] == p.content && p.frame / 4096 < 0x100_0000_0000
      ensures p.frame in Data()
    {
      LoadingSpace(start, w, b);
      Open(start, w, b);
      PlacedSeen(start, w, b, Now(), p);
      assert p.frame / 4096 in mem.pmm.managed;
    }

    /**
    Reading a loaded image through the page tables: for every loadable program header of the file the program
    sees the file part and then zeros, up to the end of its last page, with exactly the rights of the header.
    */
    lemma ImageSeen(start: set<nat>, w: Words, b: map<nat, seq<nat>>, file: seq<Byte>, i: nat, x: nat)
      requires Loading(start, w, b) && Showing(file) && mem.pmm.pageCount <= 0x100_0000_0000
      requires FileHeaderOk(file) && i < HeaderCount(file)
      requires var p := HeaderAt(file, HeaderOffset(file) + 56 * i); p.kind == LOAD && x < 4096 * PagesOf(p)
      ensures
        var p := HeaderAt(file, HeaderOffset(file) + 56 * i);
        space.mem == mem && Spot(file, p, x).ReadIn(mem.words, mem.bytes, space.root, space.nx)
    {
      OpenShowing(file);
      var at := Spot(file, HeaderAt(file, HeaderOffset(file) + 56 * i), x);
      assert Headers(file, HeaderCount(file))[i] == at.header;
      LoadingSpace(start, w, b);
      Open(start, w, b);
      forall p | p in placed ensures p.frame / 4096 < 0x100_0000_0000 { SeesPlaced(start, w, b, p); }
      SettleBooks(start, w, b, Now());
      var own := Pages(space.tablePages) + Pages(Data());
      ImageReads(mem.pmm.Free() + own, Now(), BasePlan(stack, surface, surfacePages), image, at);
    }

    /** And nothing else of the image range is mapped. */
    lemma OnlyImage(start: set<nat>, w: Words, b: map<nat, seq<nat>>, file: seq<Byte>, va: nat)
      requires Loading(start, w, b) && Showing(file) && FileHeaderOk(file)
      requires IMAGE_MIN <= va < IMAGE_MAX && space.Map(va).Some?
      ensures Loaded(file, va)
    {
      OpenShowing(file);
      Open(start, w, b);
      SpaceSeen(start, w, b, Now(), Split(va));
      var p := LookupWitness(placed, space.nx, Split(va));
      PlacedRights(file, stack, surface, surfacePages, Segments(file), image, p);
      SplitPage(p.va, va);
      PlacedAt(file, stack, surface, surfacePages, image, p, va);
    }

    /** A flat file reads as itself from the code address on, read-only and executable, with zeros behind it. */
    lemma FlatSeen(start: set<nat>, w: Words, b: map<nat, seq<nat>>, file: seq<Byte>, x: nat)
      requires Loading(start, w, b) && Shows(file, [FlatSegment(file)]) && mem.pmm.pageCount <= 0x100_0000_0000
      requires x < 4096 * ((|file| + 4095) / 4096)
      ensures
        var m := space.Map(IMAGE_MIN + x);
        && m.Some? && W !in m.value.bits && NX !in m.value.bits && P in m.value.bits && U in m.value.bits
        && ByteOf(mem.bytes, m, x % 4096) == Some(if x < |file| then file[x] else 0)
    {
      var s := FlatSegment(file);
      var p := PageInPlan(file, [s], image, s, x / 4096);
      SeesPlaced(start, w, b, p);
      SeenByte(mem.words, space.root, mem.bytes, space.nx, file, s, x, p);
    }

    /** With NX on, no user page is both writable and executable. */
    lemma NoWritableCode(start: set<nat>, w: Words, b: map<nat, seq<nat>>, file: seq<Byte>, ss: seq<Segment>, va: nat)
      requires Loading(start, w, b) && Shows(file, ss) && space.nx
      requires space.Map(va).Some? && W in space.Map(va).value.bits
      ensures NX in space.Map(va).value.bits
    {
      Open(start, w, b);
      SpaceSeen(start, w, b, Now(), Split(va));
      var p := LookupWitness(placed, true, Split(va));
      PlacedRights(file, stack, surface, surfacePages, ss, image, p);
      WritableBits(p);
    }

    /** The surface of an application is writable, never executable with NX on, and contiguous. */
    lemma SurfaceSeen(start: set<nat>, w: Words, b: map<nat, seq<nat>>, file: seq<Byte>, ss: seq<Segment>, x: nat)
      requires Loading(start, w, b) && Shows(file, ss)
      requires x < 4096 * surfacePages && mem.pmm.pageCount <= 0x100_0000_0000
      ensures space.mem == mem
      ensures ZeroAt(mem.words, mem.bytes, space.root, space.nx, surface + 4096 * (x / 4096),
                     USER_BASE + SURFACE_OFFSET + x)
    {
      var p := SurfacePlace(surface, surfacePages, x);
      SeesPlaced(start, w, b, p);
      ZeroRead(mem.words, mem.bytes, space.root, space.nx, p, USER_BASE + SURFACE_OFFSET + x);
    }

    /** The stack is one page of zeros, writable and never executable once NX is on. */
    lemma StackSeen(start: set<nat>, w: Words, b: map<nat, seq<nat>>, file: seq<Byte>, ss: seq<Segment>, x: nat)
      requires Loading(start, w, b) && Shows(file, ss) && x < 4096 && mem.pmm.pageCount <= 0x100_0000_0000
      ensures space.mem == mem
      ensures ZeroAt(mem.words, mem.bytes, space.root, space.nx, stack, USER_BASE + STACK_OFFSET + x)
    {
      var p := StackPlan(stack);
      SeesPlaced(start, w, b, p);
      StackSplit(x);
      ZeroRead(mem.words, mem.bytes, space.root, space.nx, p, USER_BASE + STACK_OFFSET + x);
    }

    /** The page below the stack is not mapped. */
    lemma GuardUnmapped(start: set<nat>, w: Words, b: map<nat, seq<nat>>, file: seq<Byte>, ss: seq<Segment>)
      requires Loading(start, w, b) && Shows(file, ss)
      ensures space.Map(USER_BASE + STACK_OFFSET - 4096) == None
    {
      Open(start, w, b);
      var v := Split(USER_BASE + STACK_OFFSET - 4096);
      SpaceSeen(start, w, b, Now(), v);
      if Lookup(placed, space.nx, v).Some? {
        var p := LookupWitness(placed, space.nx, v);
        PlacedRights(file, stack, surface, surfacePages, ss, image, p);
        SplitInjective(p.va, USER_BASE + STACK_OFFSET - 4096);
      }
    }

    // ------------------------------------------------------------------- at rest

    /** The pages of the process. */
    ghost function Own(): set<nat>
      reads this`stack, this`surface, this`surfacePages, this`image, space`tablePages
    {
      Pages(space.tablePages) + Pages(Data())
    }

    /** Between loads and releases: blank, or a finished load whose pages are all in use. */
    ghost predicate Resting()
      reads this, space, mem, mem.pmm, mem.pmm.usable, mem.pmm.used
    {
      Rests(3)
    }

    /** Resting, n steps away from its body. */
    ghost predicate Rests(n: nat)
      reads this, space, mem, mem.pmm, mem.pmm.usable, mem.pmm.used
      decreases n, this
    {
      if n > 0 then Rests(n - 1) else
      && space.mem == mem && space.Valid() && endpoint < 0x1_0000_0000_0000_0000
      && if space.root == 0 then Blank() else Loading(mem.pmm.Free() + Own(), mem.words, mem.bytes)
    }

    lemma OpenRest()
      ensures Resting() <==> Rests(0)
    {
      assert Rests(1) == Rests(0);
      assert Rests(2) == Rests(1);
    }

    /** A finished load rests, and its pages are those missing from the free pages it began with. */
    lemma Settle(start: set<nat>, w: Words, b: map<nat, seq<nat>>)
      requires Loading(start, w, b) && endpoint < 0x1_0000_0000_0000_0000
      ensures Resting() && space.root != 0 && Own() <= start && mem.pmm.Free() == start - Own()
      ensures Outside(w, mem.words, b, mem.bytes, start)
    {
      Open(start, w, b);
      SettleBooks(start, w, b, Now());
      assert Now().free + Own() == start;
      Open(mem.pmm.Free() + Own(), mem.words, mem.bytes);
      OpenRest();
    }

    lemma BlankRests()
      requires Blank() && mem.Valid() && space.mem == mem
      ensures Resting()
    {
      assert Unique(space.tablePages) && Elements(space.tablePages) == {};
      space.OpenSpace();
      OpenRest();
    }

    lemma RestingSpace()
      requires Resting()
      ensures space.mem == mem && space.Valid() && mem.Valid()
    {
      OpenRest();
      space.OpenSpace();
    }

    /** app_mapping_isolated: the surface is where its frames are, writable and not executable. */
    method MappingIsolated() returns (r: bool)
      requires space.mem == mem
      ensures r <==> appId != 0 && surface != 0 && space.root != 0 && SurfaceMapped()
    {
      if appId == 0 || surface == 0 { return false; }
      SurfaceEnds();
      var first := space.Translate(USER_BASE + SURFACE_OFFSET);
      var last := space.Translate(USER_BASE + SURFACE_OFFSET + SURFACE_BYTES - 1);
      return
        first.Some? && first.value.address == surface && W in first.value.bits &&
        (!space.nx || NX in first.value.bits) &&
        last.Some? && last.value.address == surface + SURFACE_BYTES - 1;
    }

    /** The first and the last byte of the surface are mapped where they should be. */
    ghost predicate SurfaceMapped()
      reads this, space, mem, space.mem
    {
      var first := space.Map(USER_BASE + SURFACE_OFFSET);
      var last := space.Map(USER_BASE + SURFACE_OFFSET + SURFACE_BYTES - 1);
      && first.Some? && first.value.address == surface && W in first.value.bits && (space.nx ==> NX in first.value.bits)
      && last.Some? && last.value.address == surface + 4096 * ((SURFACE_BYTES - 1) / 4096)
    }

    /** The mapping of a loaded application always passes that test. */
    lemma AlwaysIsolated(start: set<nat>, w: Words, b: map<nat, seq<nat>>, file: seq<Byte>, ss: seq<Segment>)
      requires Loading(start, w, b) && Shows(file, ss)
      requires surfacePages == SURFACE_PAGES && mem.pmm.pageCount <= 0x100_0000_0000
      ensures SurfaceMapped()
    {
      SurfaceSeen(start, w, b, file, ss, 0);
      SurfaceSeen(start, w, b, file, ss, SURFACE_BYTES - 1);
    }

    /** The mapping test of start_app_internal, which no loaded application fails; a failure releases the process. */
    method Screen(
      ghost start: set<nat>, ghost w: Words, ghost b: map<nat, seq<nat>>, ghost es: seq<Ipc.Endpoint>,
      ghost file: seq<Byte>, ghost ss: seq<Segment>)
      returns (ok: bool)
      requires Loading(start, w, b) && Enlisted(es) && Shows(file, ss) && mem.pmm.pageCount <= 0x100_0000_0000
      requires surfacePages == (if appId != 0 then SURFACE_PAGES else 0) && (appId != 0 ==> surface != 0)
      modifies this, space, mem.pmm, mem.pmm.usable, mem.pmm.used, endpoints
      ensures mem.pmm.managed == old(mem.pmm.managed)
      ensures ok <==> old(appId) != 0
      ensures ok ==> unchanged(this, space, mem.pmm, mem.pmm.usable, mem.pmm.used, endpoints)
      ensures !ok ==> Returned(start, w, b, es)
    {
      LoadingSpace(start, w, b);
      ok := MappingIsolated();
      if appId != 0 { AlwaysIsolated(start, w, b, file, ss); }
      if !ok { Abandon(start, w, b, es); }
    }

    /**
    start_app_internal up to the first dispatch: the process holds pages that were free, or none. It succeeds
    exactly when the load does and it is an application.
    */
    method Start(kernel: KernelSpace, id: nat, app: nat, file: seq<Byte>) returns (ok: bool)
      requires Idle(kernel) && Loadable(file, 3) && mem.pmm.pageCount <= 0x100_0000_0000
      modifies this, space, mem, mem.pmm, mem.pmm.usable, mem.pmm.used, endpoints
      ensures Resting() && endpoints.Valid() && mem.Valid() && mem.pmm.managed == old(mem.pmm.managed)
      ensures ok <==> app != 0 && old(Startable(kernel, id, app, file))
      ensures Own() <= old(mem.pmm.Free()) && mem.pmm.Free() == old(mem.pmm.Free()) - Own()
      ensures Outside(old(mem.words), mem.words, old(mem.bytes), mem.bytes, old(mem.pmm.Free()))
      ensures ok ==> space.root != 0 && Enlisted(old(endpoints.slots)) && Showing(file) && Equipped(id, app)
      ensures !ok ==> Blank() && Ipc.SameInUse(old(endpoints.slots), endpoints.slots)
    {
      assert space.mem == mem by { OpenIdle(kernel); }
      ok := LoadElf(kernel, id, app, file);
      if ok {
        assert Shows(file, Segments(file)) by { OpenShowing(file); }
        ok := Screen(old(mem.pmm.Free()), old(mem.words), old(mem.bytes), old(endpoints.slots), file, Segments(file));
      }
      if ok {
        Settle(old(mem.pmm.Free()), old(mem.words), old(mem.bytes));
        RestingSpace();
      } else {
        BlankRests();
      }
    }

    /** Releases whatever the process holds. */
    method Stop()
      requires Resting() && endpoints.Valid()
      modifies this, space, mem.pmm, mem.pmm.usable, mem.pmm.used, endpoints
      ensures Resting() && Blank() && endpoints.Valid() && mem.Valid() && mem.pmm.managed == old(mem.pmm.managed)
      ensures mem.pmm.Free() == old(mem.pmm.Free()) + old(Own())
      ensures old(endpoint) == 0 ==> endpoints.slots == old(endpoints.slots)
      ensures old(endpoint) != 0 ==> Ipc.Closed(old(endpoints.slots), endpoints.slots, old(endpoint))
    {
      RestingSpace();
      OpenRest();
      if space.root == 0 { return; }
      Open(mem.pmm.Free() + Own(), mem.words, mem.bytes);
      Unfold(mem.pmm.Free() + Own(), mem.words, mem.bytes, Now());
      assert space.Holding() by { space.OpenSpace(); }
      Release(mem.pmm.Free() + Own());
      BlankRests();
    }

    /** Starting and stopping restores the free pages and the endpoints in use. */
    method StartStop(kernel: KernelSpace, id: nat, app: nat, file: seq<Byte>) returns (ok: bool)
      requires Idle(kernel) && Loadable(file, 3) && mem.pmm.pageCount <= 0x100_0000_0000
      modifies this, space, mem, mem.pmm, mem.pmm.usable, mem.pmm.used, endpoints
      ensures Blank() && mem.pmm.Free() == old(mem.pmm.Free()) && Ipc.SameInUse(old(endpoints.slots), endpoints.slots)
    {
      ok := Start(kernel, id, app, file);
      if ok {
        ghost var id0, slots, handle := pid, endpoints.slots, endpoint;
        Stop();
        if handle != 0 { Ipc.CreateDestroy(old(endpoints.slots), slots, endpoints.slots, id0, handle); }
      }
    }

    /**
    The program stores a byte at `va`. The processor faults exactly if the address is not mapped for it to write;
    otherwise one byte of one page of the process changes, and the process rests as before.
    */
    method UserStore(va: nat, byte: Byte) returns (ok: bool)
      requires Resting() && mem.pmm.pageCount <= 0x100_0000_0000
      modifies this`placed, mem`bytes
      ensures Resting()
      ensures ok <==> space.root != 0 && space.Accessible(va, true)
      ensures ok ==> Overwritten(mem.words, space.root, old(mem.bytes), mem.bytes, va, [byte])
      ensures Stands(old(mem.words), old(mem.bytes), space.root, mem.words, mem.bytes)
      ensures Outside(old(mem.words), mem.words, old(mem.bytes), mem.bytes, Own())
      ensures !ok ==> mem.bytes == old(mem.bytes) && placed == old(placed)
      ensures ok ==>
        space.Map(va).Some? && space.Map(va).value.address in old(mem.bytes) && space.Map(va).value.address in Data()
      ensures ok ==>
        var f := space.Map(va).value.address;
        |old(mem.bytes)[f]| == 4096 && mem.bytes == old(mem.bytes)[f := Stored(old(mem.bytes)[f], va % 4096, byte)]
    {
      RestingSpace();
      if space.root == 0 { return false; }
      var m := Access(mem.words, space.root, va, true);
      if m.None? { return false; }
      var f := m.value.address;
      FrameAt(va);
      StoreView(va, byte);
      var page := Stored(mem.bytes[f], va % 4096, byte);
      ghost var start := mem.pmm.Free() + Own();
      assert Books(start, mem.words, mem.bytes, Now(), 3) && start <= mem.pmm.managed &&
        surfacePages <= SURFACE_PAGES by {
        OpenRest();
        Open(start, mem.words, mem.bytes);
      }
      assert endpoint < 0x1_0000_0000_0000_0000 by { OpenRest(); }
      mem.bytes := mem.bytes[f := page];
      placed := Rewritten(placed, f, page);
      StoreKeeps(start, old(Now()), Now(), f, page);
      assert space.Valid() by { SpaceKept(); }
      assert Loading(start, mem.words, mem.bytes) by { Open(start, mem.words, mem.bytes); }
      OpenRest();
      return true;
    }

    lemma SmallFrames()
      requires Resting() && space.root != 0 && mem.pmm.pageCount <= 0x100_0000_0000
      ensures Small(placed)
    {
      RestingSpace();
      var start := mem.pmm.Free() + Own();
      assert Loading(start, mem.words, mem.bytes) by { OpenRest(); }
      forall p | p in placed ensures p.frame / 4096 < 0x100_0000_0000 { SeesPlaced(start, mem.words, mem.bytes, p); }
    }

    /** What a store changes of the view of the program. */
    lemma StoreView(va: nat, byte: Byte)
      requires Resting() && space.root != 0 && space.Accessible(va, true) && mem.pmm.pageCount <= 0x100_0000_0000
      requires space.Map(va).Some? && space.Map(va).value.address in mem.bytes
      requires |mem.bytes[space.Map(va).value.address]| == 4096
      ensures
        var f := space.Map(va).value.address;
        var bytes := mem.bytes[f := Stored(mem.bytes[f], va % 4096, byte)];
        && Stands(mem.words, mem.bytes, space.root, mem.words, bytes)
        && Overwritten(mem.words, space.root, mem.bytes, bytes, va, [byte])
    {
      RestingSpace();
      SmallFrames();
      space.AccessiblePasses(va, true);
      space.PassesExact(va, true);
      var start := mem.pmm.Free() + Own();
      assert Books(start, mem.words, mem.bytes, Now(), 3) by {
        OpenRest();
        Open(start, mem.words, mem.bytes);
      }
      var f := space.Map(va).value.address;
      StoreStands(start, mem.words, mem.bytes, Now(), Split(va), Stored(mem.bytes[f], va % 4096, byte));
      forall x: nat | x < VIRTUAL_END
        ensures Seen(mem.words, space.root, mem.bytes[f := Stored(mem.bytes[f], va % 4096, byte)], x) ==
          if va <= x < va + 1 then Some([byte][x - va]) else Seen(mem.words, space.root, mem.bytes, x)
      {
        StoreSeen(start, mem.words, mem.bytes, Now(), va, byte, x);
      }
    }

    /** Bytes copied into the memory of the program, as ipc_receive copies a message. */
    method CopyIn(address: nat, data: seq<Byte>)
      requires Resting() && space.mem == mem && space.root != 0 && mem.pmm.pageCount <= 0x100_0000_0000
      requires forall va: nat :: address <= va < address + |data| ==> space.Accessible(va, true)
      modifies this`placed, mem`bytes
      ensures Resting()
      ensures Overwritten(mem.words, space.root, old(mem.bytes), mem.bytes, address, data)
      ensures Stands(old(mem.words), old(mem.bytes), space.root, mem.words, mem.bytes)
      ensures Outside(old(mem.words), mem.words, old(mem.bytes), mem.bytes, Own())
    {
      assert data[..0] == [];
      for k := 0 to |data|
        invariant Resting() && mem.words == old(mem.words)
        invariant Overwritten(mem.words, space.root, old(mem.bytes), mem.bytes, address, data[..k])
        invariant Stands(old(mem.words), old(mem.bytes), space.root, mem.words, mem.bytes)
        invariant Outside(old(mem.words), mem.words, old(mem.bytes), mem.bytes, Own())
      {
        ghost var b := mem.bytes;
        assert old(space.Accessible(address + k, true)) && space.Accessible(address + k, true);
        var ok := UserStore(address + k, data[k]);
        assert ok && Overwritten(mem.words, space.root, b, mem.bytes, address + k, [data[k]]);
        StandsTrans(old(mem.words), old(mem.bytes), space.root, mem.words, b, mem.words, mem.bytes);
        OutsideTwice(mem.words, old(mem.bytes), b, mem.bytes, Own());
        FillMore(mem.words, space.root, old(mem.bytes), b, mem.bytes, address, data, k);
      }
      assert data[..|data|] == data;
    }

    /** What a user write gets to is a whole page of the process. */
    lemma FrameAt(va: nat)
      requires Resting() && space.root != 0 && space.Accessible(va, true) && mem.pmm.pageCount <= 0x100_0000_0000
      ensures space.Map(va).Some? && Access(mem.words, space.root, va, true) == space.Map(va)
      ensures space.Map(va).value.address in Data() && space.Map(va).value.address in mem.bytes
      ensures |mem.bytes[space.Map(va).value.address]| == 4096
    {
      RestingSpace();
      space.AccessiblePasses(va, true);
      space.PassesExact(va, true);
      var start := mem.pmm.Free() + Own();
      assert Loading(start, mem.words, mem.bytes) by { OpenRest(); }
      LoadingSpace(start, mem.words, mem.bytes);
      var p := LookupWitness(placed, space.nx, Split(va));
      SeesPlaced(start, mem.words, mem.bytes, p);
      SmallEntry(p, space.nx);
      Open(start, mem.words, mem.bytes);
      PlacedPage(start, mem.words, mem.bytes, Now(), p);
    }

    /**
    The checks of the system calls accept an address that the processor does not: the alias of the stack, 2^48
    above it, in any process with an image.
    */
    lemma StackAlias(file: seq<Byte>, ss: seq<Segment>)
      requires Resting() && space.root != 0 && Shows(file, ss) && mem.pmm.pageCount <= 0x100_0000_0000
      ensures space.Cleared(0x1_0080_0020_0000, 1, true) && !space.Accessible(0x1_0080_0020_0000, true)
    {
      RestingSpace();
      var start := mem.pmm.Free() + Own();
      assert Loading(start, mem.words, mem.bytes) by { OpenRest(); }
      assert StackPlan(stack) in placed;
      SeesPlaced(start, mem.words, mem.bytes, StackPlan(stack));
      SmallEntry(StackPlan(stack), space.nx);
      assert space.Cleared(USER_BASE + STACK_OFFSET, 1, true);
      space.AliasCleared(USER_BASE + STACK_OFFSET, 1, true, 1);
    }

    /** The pages of a resting process were not free. */
    twostate lemma Used()
      requires old(Resting()) && old(allocated(this))
      ensures old(mem.pmm.Free() !! Own())
    {
      assert old(Rests(0)) by {
        assert old(Rests(1)) == old(Rests(0));
        assert old(Rests(2)) == old(Rests(1));
      }
      if old(space.root) != 0 {
        var start, w, b := old(mem.pmm.Free() + Own()), old(mem.words), old(mem.bytes);
        assert old(Load(start, w, b, 0)) by {
          assert old(Load(start, w, b, 1)) == old(Load(start, w, b, 0));
          assert old(Load(start, w, b, 2)) == old(Load(start, w, b, 1));
        }
        OwnUsed(old(Now()));
      }
    }

    /** The pages of the process hold what they held. */
    twostate predicate SameContents()
      reads this, mem
    {
      forall f :: f in Data() && f in old(mem.bytes) ==> f in mem.bytes && mem.bytes[f] == old(mem.bytes)[f]
    }

    twostate lemma OldBooks()
      requires old(Resting()) && old(space.root) != 0
      ensures space.mem == mem
      ensures Books(old(mem.pmm.Free() + Own()), old(mem.words), old(mem.bytes), old(Now()), 3)
      ensures old(mem.pmm.Free() + Own()) <= old(mem.pmm.managed)
      ensures forall page :: page in old(mem.pmm.managed) ==> page < mem.pmm.pageCount
    {
      assert old(Rests(0)) by {
        assert old(Rests(1)) == old(Rests(0));
        assert old(Rests(2)) == old(Rests(1));
      }
      var start, w, b := old(mem.pmm.Free() + Own()), old(mem.words), old(mem.bytes);
      assert old(Load(start, w, b, 0)) by {
        assert old(Load(start, w, b, 1)) == old(Load(start, w, b, 0));
        assert old(Load(start, w, b, 2)) == old(Load(start, w, b, 1));
      }
      OldSpace();
    }

    twostate lemma OldSmall()
      requires old(Resting()) && old(space.root) != 0 && mem.pmm.pageCount <= 0x100_0000_0000
      ensures Small(old(placed))
    {
      OldBooks();
      SmallIn(old(mem.pmm.Free() + Own()), old(Now()), old(mem.pmm.managed));
    }

    twostate lemma OldShown(file: seq<Byte>)
      requires old(Showing(file))
      ensures Accepted(file, IMAGE_MIN, IMAGE_MAX) && old(Shows(file, Segments(file)))
    {
      assert old(ShowingIn(file, 1)) == old(ShowingIn(file, 0));
      assert old(ShowingIn(file, 2)) == old(ShowingIn(file, 1));
    }

    /** An image read as its file. */
    twostate lemma OldReads(at: Spot)
      requires old(Resting()) && old(space.root) != 0 && mem.pmm.pageCount <= 0x100_0000_0000
      requires old(Showing(at.file)) && at.InImage()
      ensures space.mem == mem && at.ReadIn(old(mem.words), old(mem.bytes), old(space.root), old(space.nx))
    {
      OldBooks();
      OldSmall();
      OldShown(at.file);
      var base := BasePlan(old(stack), old(surface), old(surfacePages));
      ImageReads(old(mem.pmm.Free() + Own()), old(Now()), base, old(image), at);
    }

    /** A process that rests with the placements it had shows what it showed. */
    twostate lemma Persists()
      requires old(Resting()) && Resting() && unchanged(this) && unchanged(space)
      requires space.root != 0 && mem.pmm.pageCount <= 0x100_0000_0000
      ensures Stands(old(mem.words), old(mem.bytes), space.root, mem.words, mem.bytes)
    {
      OldBooks();
      SmallFrames();
      var start := mem.pmm.Free() + Own();
      assert Books(start, mem.words, mem.bytes, Now(), 3) by {
        OpenRest();
        Open(start, mem.words, mem.bytes);
      }
      SamePlaced(old(mem.pmm.Free() + Own()), old(Now()), start, Now());
    }

    twostate lemma OldSpace()
      requires old(space.Valid())
      ensures old(space.ValidIn(0))
    {
      assert old(space.ValidIn(1)) == old(space.ValidIn(0));
      assert old(space.ValidIn(2)) == old(space.ValidIn(1));
    }

    /** A space whose words and pages are left alone stays valid. */
    twostate lemma SpaceStays()
      requires old(space.Valid()) && unchanged(space) && space.mem == mem && mem.Valid()
      requires mem.pmm.managed == old(mem.pmm.managed) && (mem.pmm.Free() - old(mem.pmm.Free())) !! Own()
      requires space.root != 0 ==> Folded(mem.words, space.nodes, space.root, 3)
      ensures space.Valid()
    {
      OldSpace();
      forall f | f in Elements(space.tablePages) ensures f / 4096 !in mem.pmm.Free() {
        assert f / 4096 in Pages(space.tablePages);
      }
      space.OpenSpace();
    }

    /**
    Meanwhile another process was loaded or released, or ran: only frames of `touched` pages changed, none of them
    of this process, and none of its pages became free. Then this process still rests, with the same pages,
    translations and contents.
    */
    twostate lemma Undisturbed(touched: set<nat>)
      requires old(Resting()) && mem.Valid() && mem.pmm.managed == old(mem.pmm.managed)
      requires unchanged(this) && unchanged(space)
      requires (mem.pmm.Free() - old(mem.pmm.Free())) !! Own() && touched !! Own()
      requires Outside(old(mem.words), mem.words, old(mem.bytes), mem.bytes, touched)
      ensures Resting()
      ensures SameContents()
    {
      assert old(Rests(0)) by {
        assert old(Rests(1)) == old(Rests(0));
        assert old(Rests(2)) == old(Rests(1));
      }
      if space.root != 0 {
        var start, w, b := old(mem.pmm.Free()) + Own(), old(mem.words), old(mem.bytes);
        assert old(Load(start, w, b, 0)) by {
          assert old(Load(start, w, b, 1)) == old(Load(start, w, b, 0));
          assert old(Load(start, w, b, 2)) == old(Load(start, w, b, 1));
        }
        assert Folded(old(mem.words), space.nodes, space.root, 3) && space.nodes.Keys == Elements(space.tablePages) by {
          OldSpace();
        }
        KeptBooks(old(Now()), Now(), space.nodes, touched);
        SpaceStays();
        Open(mem.pmm.Free() + Own(), mem.words, mem.bytes);
      } else {
        SpaceStays();
      }
      OpenRest();
    }
  }

  /** elf_validate_user_image with the bounds of a process. */
  method Inspect(file: seq<Byte>) returns (ok: bool, ss: seq<Segment>, at: nat)
    requires Loadable(file, 3)
    ensures ok <==> Good(file, 3)
    ensures ok ==> Describes(file, ss, at, 3) && Fits(file, ss) && SumPages(ss) == ImagePages(file, 3)
  {
    OpenGood(file);
    var elf;
    ok, elf := ValidateUserImage(file, IMAGE_MIN, IMAGE_MAX);
    if !ok { return false, [], 0; }
    LoadableFits(file);
    OpenDescribes(file, elf.segments, elf.entry);
    return true, elf.segments, elf.entry;
  }

  /** A kernel tree whose words are untouched stays one. */
  lemma KernelFrame(w: Words, w': Words, nodes: map<nat, Node>, root: nat)
    requires Tree(w, nodes, root, Kernel) && NoUser(w, root)
    requires forall f, i: nat :: f in nodes ==> Entry(w', f, i) == Entry(w, f, i)
    ensures Tree(w', nodes, root, Kernel) && NoUser(w', root)
  {}

  lemma PutBack(free: set<nat>, own: set<nat>)
    requires own <= free
    ensures (free - own) + own == free + {}
  {}

  /** What may happen to the process slots. */
  datatype Command =
    | Stop(slot: nat)
    | Restart(slot: nat, id: nat, app: nat, file: seq<Byte>)
    | Store(slot: nat, va: nat, byte: Byte)
    | Send(slot: nat, handle: nat, data: seq<Byte>)
    | Receive(slot: nat, address: nat, capacity: nat)

  /** The answer to a process that asks for a message. */
  datatype Receipt = Nothing | Refused | KernelFault | Got(message: Ipc.Message)

  /**
  What a process gets that asks for the message that waits first: the buffer has to be large enough and to pass
  the range check. The check lets addresses through that are not canonical, and then the copy faults.
  */
  function Answer(front: Option<Ipc.Message>, address: nat, capacity: nat, cleared: bool): Receipt {
    match front
    case None => Nothing
    case Some(m) =>
      if capacity == 0 || capacity > Ipc.MESSAGE_MAX || !cleared || |m.data| > capacity then Refused
      else if m.data != [] && address >= 0x8000_0000_0000 then KernelFault
      else Got(m)
  }

  /** The process slots, which share the kernel's tables, one memory and one endpoint table. */
  class ProcessTable {
    const mem: Memory
    const kernel: KernelSpace
    const endpoints: Ipc.Endpoints
    const slots: seq<Process>

    constructor (kernel: KernelSpace, endpoints: Ipc.Endpoints, slots: seq<Process>)
      ensures this.mem == kernel.mem && this.kernel == kernel && this.endpoints == endpoints && this.slots == slots
    {
      this.mem, this.kernel, this.endpoints, this.slots := kernel.mem, kernel, endpoints, slots;
    }

    /** The table at boot: `n` blank slots, and the state from which every run begins is in order. */
    static method Boot(kernel: KernelSpace, endpoints: Ipc.Endpoints, n: nat) returns (t: ProcessTable)
      requires kernel.Valid() && endpoints.Valid() && kernel.mem.pmm.pageCount <= 0x100_0000_0000
      ensures fresh(t) && t.kernel == kernel && t.endpoints == endpoints && |t.slots| == n
      ensures t.Valid() && forall i :: 0 <= i < n ==> t.slots[i].Blank()
    {
      var slots: seq<Process> := [];
      for i := 0 to n
        invariant |slots| == i && forall p :: p in slots ==> New(p, kernel.mem, endpoints)
        invariant forall j, k :: 0 <= j < k < i ==> slots[j] != slots[k] && slots[j].space != slots[k].space
        invariant fresh(slots) && fresh(set p | p in slots :: p.space)
      {
        var p := new Process(kernel.mem, endpoints);
        slots := slots + [p];
      }
      t := new ProcessTable(kernel, endpoints, slots);
      t.FirstState();
    }

    static ghost predicate New(p: Process, mem: Memory, endpoints: Ipc.Endpoints)
      reads p, p.space
    {
      p.mem == mem && p.endpoints == endpoints && p.space.mem == mem && p.Blank()
    }

    /** Blank slots over a kernel in order are in order. */
    lemma FirstState()
      requires Shaped() && kernel.Valid() && endpoints.Valid()
      requires forall p :: p in slots ==> p.space.mem == mem && p.Blank()
      ensures Valid()
    {
      forall i | 0 <= i < |slots| ensures slots[i].Resting() && slots[i].Own() == {} {
        assert slots[i] in slots;
        slots[i].BlankRests();
      }
      OpenSeparated();
      OpenLinked();
    }

    /** Different slots are different objects with different spaces. Frames have 52-bit addresses. */
    ghost predicate Shaped() {
      && kernel.mem == mem && (forall p :: p in slots ==> p.mem == mem && p.endpoints == endpoints)
      && (forall i, j :: 0 <= i < |slots| && 0 <= j < |slots| && i != j ==>
        slots[i] != slots[j] && slots[i].space != slots[j].space)
      && mem.pmm.pageCount <= 0x100_0000_0000
    }

    /** The kernel's tables are none of the pages of slot `p`. */
    ghost predicate OffKernel(p: Process)
      reads kernel, p`stack, p`surface, p`surfacePages, p`image, p.space`tablePages
    {
      forall f :: f in kernel.nodes ==> f / 4096 !in p.Own()
    }

    /** The endpoint handle of each slot, 0 for none, and the process it is for. */
    ghost function Handles(): (hs: seq<nat>)
      reads slots
      ensures |hs| == |slots| && forall i :: 0 <= i < |slots| ==> hs[i] == slots[i].endpoint
    {
      seq(|slots|, i requires 0 <= i < |slots| reads slots => slots[i].endpoint)
    }

    ghost function Pids(): (ids: seq<nat>)
      reads slots
      ensures |ids| == |slots| && forall i :: 0 <= i < |slots| ==> ids[i] == slots[i].pid
    {
      seq(|slots|, i requires 0 <= i < |slots| reads slots => slots[i].pid)
    }

    /**
    Every slot rests, no page belongs to two slots, and none to a slot and the kernel. (Folded: n steps away from
    its body.)
    */
    ghost predicate Separated(n: nat)
      requires Shaped()
      reads slots, set p | p in slots :: p.space, kernel, mem, mem.pmm, mem.pmm.usable, mem.pmm.used
      decreases n, this
    {
      if n > 0 then Separated(n - 1)
      else
        && kernel.Valid() && (forall i :: 0 <= i < |slots| ==> slots[i].Resting() && OffKernel(slots[i]))
        && forall i, j :: 0 <= i < |slots| && 0 <= j < |slots| && i != j ==> slots[i].Own() !! slots[j].Own()
    }

    lemma OpenSeparated()
      requires Shaped()
      ensures Separated(3) <==> Separated(0)
    {
      assert Separated(1) == Separated(0);
      assert Separated(2) == Separated(1);
    }

    twostate lemma OldSeparated()
      requires Shaped() && old(Separated(3))
      ensures old(Separated(0))
    {
      assert old(Separated(1)) == old(Separated(0));
      assert old(Separated(2)) == old(Separated(1));
    }

    /** Every slot's endpoint is open for its process, and no endpoint is that of two slots. (Folded likewise.) */
    ghost predicate Linked(n: nat)
      requires endpoints.Valid()
      reads slots, endpoints
      decreases n, this
    {
      if n > 0 then Linked(n - 1) else Owners.Linked(endpoints.slots, Handles(), Pids())
    }

    lemma OpenLinked()
      requires endpoints.Valid()
      ensures Linked(3) <==> Linked(0)
    {
      assert Linked(1) == Linked(0);
      assert Linked(2) == Linked(1);
    }

    twostate lemma OldLinked()
      requires old(endpoints.Valid()) && old(Linked(3))
      ensures old(Linked(0))
    {
      assert old(Linked(1)) == old(Linked(0));
      assert old(Linked(2)) == old(Linked(1));
    }

    ghost predicate Valid()
      reads slots, set p | p in slots :: p.space, kernel, mem, mem.pmm, mem.pmm.usable, mem.pmm.used, endpoints
    {
      Shaped() && endpoints.Valid() && Separated(3) && Linked(3)
    }

    /** What a slot may rely on. */
    lemma SlotRests(i: nat)
      requires Valid() && i < |slots|
      ensures slots[i].mem == mem && slots[i].endpoints == endpoints && slots[i].space.mem == mem
      ensures slots[i].Resting() && slots[i].space.Valid() && mem.Valid() && kernel.Valid() && endpoints.Valid()
    {
      OpenSeparated();
      slots[i].RestingSpace();
    }

    /** process_app_stop: the pages of the slot are free again, its endpoint is closed, and the others keep theirs. */
    method Stop(i: nat)
      requires Valid() && i < |slots|
      modifies slots[i], slots[i].space, mem.pmm, mem.pmm.usable, mem.pmm.used, endpoints
      ensures Valid() && slots[i].Blank() && mem.pmm.managed == old(mem.pmm.managed)
      ensures mem.pmm.Free() == old(mem.pmm.Free()) + old(slots[i].Own())
      ensures forall j :: 0 <= j < |slots| && j != i ==> slots[j].Own() == old(slots[j].Own())
      ensures old(slots[i].endpoint) != 0 ==> !Ipc.IsOpen(endpoints.slots, old(slots[i].endpoint))
      ensures Ipc.SomeUnused(endpoints.slots) <==> old(slots[i].endpoint != 0 || Ipc.SomeUnused(endpoints.slots))
      ensures SameStrays()
    {
      assert slots[i].Resting() && endpoints.Valid() by { SlotRests(i); }
      slots[i].Stop();
      assert slots[i].Own() == {};
      Kept(i);
      StopLinks(i);
    }

    /** Loading into a blank slot: it gets pages that were free, and the other slots keep theirs. */
    method Start(i: nat, id: nat, app: nat, file: seq<Byte>) returns (ok: bool)
      requires Valid() && i < |slots| && slots[i].Blank() && Loadable(file, 3)
      modifies slots[i], slots[i].space, mem, mem.pmm, mem.pmm.usable, mem.pmm.used, endpoints
      ensures Valid() && mem.pmm.managed == old(mem.pmm.managed)
      ensures ok <==> app != 0 && old(slots[i].Startable(kernel, id, app, file))
      ensures if ok then slots[i].Showing(file) && slots[i].Equipped(id, app) else slots[i].Blank()
      ensures slots[i].Own() <= old(mem.pmm.Free()) && mem.pmm.Free() == old(mem.pmm.Free()) - slots[i].Own()
      ensures forall j :: 0 <= j < |slots| && j != i ==> slots[j].Own() == old(slots[j].Own())
      ensures SameStrays()
    {
      assert slots[i].Idle(kernel) by {
        SlotRests(i);
        slots[i].OpenIdle(kernel);
      }
      ok := slots[i].Start(kernel, id, app, file);
      Joined(i);
    }

    /** A slot that took free pages, and an endpoint or none, leaves the table in order. */
    twostate lemma Joined(i: nat)
      requires i < |slots| && old(Valid()) && endpoints.Valid() && mem.Valid() && slots[i].Resting()
      requires unchanged(kernel) && old(slots[i].Blank()) && mem.pmm.managed == old(mem.pmm.managed)
      requires slots[i].Own() <= old(mem.pmm.Free()) && mem.pmm.Free() == old(mem.pmm.Free()) - slots[i].Own()
      requires forall j :: 0 <= j < |slots| && j != i ==> unchanged(slots[j]) && unchanged(slots[j].space)
      requires Outside(old(mem.words), mem.words, old(mem.bytes), mem.bytes, old(mem.pmm.Free()))
      requires slots[i].endpoint == 0 ==> Ipc.SameInUse(old(endpoints.slots), endpoints.slots)
      requires slots[i].endpoint != 0 ==>
        Ipc.Created(old(endpoints.slots), endpoints.slots, slots[i].pid, slots[i].endpoint)
      ensures Valid() && SameStrays()
      ensures forall j :: 0 <= j < |slots| && j != i ==> slots[j].Own() == old(slots[j].Own())
    {
      Kept(i);
      StartLinks(i);
    }

    /**
    The program in a slot stores a byte, or faults. Nothing of another slot or of the kernel changes, whatever
    the address.
    */
    method Store(i: nat, va: nat, byte: Byte) returns (ok: bool)
      requires Valid() && i < |slots|
      modifies slots[i], mem`bytes
      ensures Valid() && Handles() == old(Handles()) && slots[i].Own() == old(slots[i].Own()) && Lives(i)
      ensures ok <==> slots[i].space.root != 0 && slots[i].space.Accessible(va, true)
      ensures ok ==> Overwritten(mem.words, slots[i].space.root, old(mem.bytes), mem.bytes, va, [byte])
      ensures !ok ==> mem.bytes == old(mem.bytes)
      ensures forall j :: 0 <= j < |slots| && j != i ==> slots[j].SameContents()
      ensures forall f :: f in old(mem.bytes) && f / 4096 !in slots[i].Own() ==>
        f in mem.bytes && mem.bytes[f] == old(mem.bytes)[f]
    {
      assert slots[i].Resting() && slots[i].mem == mem && slots[i].space.mem == mem by { SlotRests(i); }
      ok := slots[i].UserStore(va, byte);
      StoreKept(i);
    }

    /** Bytes copied into the memory of the program in a slot, to addresses it may write. */
    method Deposit(i: nat, address: nat, data: seq<Byte>)
      requires Valid() && i < |slots| && slots[i].space.root != 0
      requires forall va: nat :: address <= va < address + |data| ==> slots[i].space.Accessible(va, true)
      modifies slots[i], mem`bytes
      ensures Valid() && Handles() == old(Handles()) && slots[i].Own() == old(slots[i].Own()) && Lives(i)
      ensures slots[i].pid == old(slots[i].pid) && Pool() == old(Pool())
      ensures Overwritten(mem.words, slots[i].space.root, old(mem.bytes), mem.bytes, address, data)
    {
      assert slots[i].Resting() && slots[i].mem == mem && slots[i].space.mem == mem by { SlotRests(i); }
      slots[i].CopyIn(address, data);
      StoreKept(i);
      Traded(i);
    }

    /**
    The program in a slot goes on with its endpoint, its translations and what its read-only pages hold.
    */
    twostate predicate Lives(i: nat)
      requires i < |slots|
      reads slots[i], slots[i].space, mem
    {
      var p := slots[i];
      && p.pid == old(p.pid) && p.appId == old(p.appId) && p.endpoint == old(p.endpoint) && p.entry == old(p.entry)
      && p.space.root == old(p.space.root) && p.space.nx == old(p.space.nx)
      && (p.space.root != 0 ==> Stands(old(mem.words), old(mem.bytes), p.space.root, mem.words, mem.bytes))
    }

    /** All programs but perhaps that in slot `i` go on. */
    twostate predicate OthersGoOn(i: nat)
      reads slots, set p | p in slots :: p.space, mem
    {
      forall j :: 0 <= j < |slots| && j != i ==> Lives(j)
    }

    /** Whatever happened to one slot, the programs in the others go on. */
    twostate lemma OthersLive(i: nat)
      requires i < |slots| && old(Valid()) && Valid()
      requires forall j :: 0 <= j < |slots| && j != i ==> unchanged(slots[j]) && unchanged(slots[j].space)
      ensures OthersGoOn(i)
    {
      OldSeparated();
      OpenSeparated();
      forall j | 0 <= j < |slots| && j != i ensures Lives(j) {
        if slots[j].space.root != 0 { slots[j].Persists(); }
      }
    }

    /** What a read-only header of a program loaded still reads as its file as long as the program goes on. */
    twostate lemma ImageStays(i: nat, at: Spot)
      requires i < |slots| && old(Valid()) && Lives(i) && slots[i].space.root != 0 && old(slots[i].Showing(at.file))
      requires at.InImage() && at.header.flags / 2 % 2 == 0
      ensures at.ReadIn(mem.words, mem.bytes, slots[i].space.root, slots[i].space.nx)
    {
      assert old(slots[i].Resting()) by { OldSeparated(); }
      slots[i].OldReads(at);
      SpotStays(at, old(mem.words), old(mem.bytes), slots[i].space.root, mem.words, mem.bytes, slots[i].space.nx);
    }

    /** Endpoints that no slot holds are as they were. */
    twostate predicate SameStrays()
      reads slots, endpoints
    {
      && old(endpoints.Valid()) && endpoints.Valid()
      && Owners.SameStrays(old(endpoints.slots), old(Handles()), endpoints.slots, Handles())
    }

    /** The managed pages that are free or belong to a slot. */
    ghost function Pool(): set<nat>
      reads slots, set p | p in slots :: p.space, mem.pmm
    {
      set page | page in mem.pmm.managed && Pooled(page)
    }

    ghost predicate Pooled(page: nat)
      reads slots, set p | p in slots :: p.space, mem.pmm
    {
      page in mem.pmm.Free() || exists i :: 0 <= i < |slots| && page in slots[i].Own()
    }

    /** Pages traded between one slot and the free pages stay in the pool. */
    twostate lemma Traded(i: nat)
      requires i < |slots| && mem.pmm.managed == old(mem.pmm.managed)
      requires mem.pmm.Free() + slots[i].Own() == old(mem.pmm.Free() + slots[i].Own())
      requires forall j :: 0 <= j < |slots| && j != i ==> slots[j].Own() == old(slots[j].Own())
      ensures Pool() == old(Pool())
    {
      forall page: nat ensures Pooled(page) == old(Pooled(page)) {
        assert page in mem.pmm.Free() + slots[i].Own() <==> page in old(mem.pmm.Free() + slots[i].Own());
      }
    }

    /** process_app_restart: stops the slot if it is in use and loads an image into it. */
    method Restart(i: nat, id: nat, app: nat, file: seq<Byte>) returns (ok: bool)
      requires Valid() && i < |slots| && Loadable(file, 3)
      modifies slots[i], slots[i].space, mem, mem.pmm, mem.pmm.usable, mem.pmm.used, endpoints
      ensures Valid() && Pool() == old(Pool()) && SameStrays()
      ensures ok <==> app != 0 && old(Restartable(i, id, app, file))
      ensures if ok then slots[i].Showing(file) && slots[i].Equipped(id, app) else slots[i].Blank()
    {
      ghost var es, hs := endpoints.slots, Handles();
      Vacate(i, id, app, file);
      ghost var es1, hs1 := endpoints.slots, Handles();
      ok := Occupy(i, id, app, file);
      Owners.SameStraysTrans(es, hs, es1, hs1, endpoints.slots, Handles());
    }

    /** What a restart needs: a good image, and enough memory and an endpoint once the slot has given up its own. */
    ghost predicate Restartable(i: nat, id: nat, app: nat, file: seq<Byte>)
      requires i < |slots|
      reads kernel, mem, mem.pmm, endpoints, slots[i], slots[i].space
    {
      && Good(file, 3) && id != 0 && kernel.root != 0 && P !in Entry(mem.words, kernel.root, USER_SLOT).bits
      && Enough(mem.pmm.Free() + slots[i].Own(), app, ImagePages(file, 3))
      && (app != 0 ==> slots[i].endpoint != 0 || Ipc.SomeUnused(endpoints.slots))
    }

    /** Stop, as a restart sees it. */
    method Vacate(i: nat, ghost id: nat, ghost app: nat, ghost file: seq<Byte>)
      requires Valid() && i < |slots|
      modifies slots[i], slots[i].space, mem.pmm, mem.pmm.usable, mem.pmm.used, endpoints
      ensures Valid() && slots[i].Blank() && Pool() == old(Pool()) && SameStrays()
      ensures slots[i].Startable(kernel, id, app, file) <==> old(Restartable(i, id, app, file))
    {
      Halt(i);
      assert slots[i].mem == mem && slots[i].endpoints == endpoints by { SlotRests(i); }
    }

    /** Stop, as the pool sees it. */
    method Halt(i: nat)
      requires Valid() && i < |slots|
      modifies slots[i], slots[i].space, mem.pmm, mem.pmm.usable, mem.pmm.used, endpoints
      ensures Valid() && slots[i].Blank() && Pool() == old(Pool()) && SameStrays()
      ensures mem.pmm.Free() == old(mem.pmm.Free() + slots[i].Own())
      ensures Ipc.SomeUnused(endpoints.slots) <==> old(slots[i].endpoint != 0 || Ipc.SomeUnused(endpoints.slots))
    {
      ghost var free := mem.pmm.Free() + slots[i].Own();
      Stop(i);
      assert slots[i].Own() == {} && free + {} == free;
      Traded(i);
    }

    /** Start, as the pool sees it. */
    method Occupy(i: nat, id: nat, app: nat, file: seq<Byte>) returns (ok: bool)
      requires Valid() && i < |slots| && slots[i].Blank() && Loadable(file, 3)
      modifies slots[i], slots[i].space, mem, mem.pmm, mem.pmm.usable, mem.pmm.used, endpoints
      ensures Valid() && Pool() == old(Pool()) && SameStrays()
      ensures ok <==> app != 0 && old(slots[i].Startable(kernel, id, app, file))
      ensures if ok then slots[i].Showing(file) && slots[i].Equipped(id, app) else slots[i].Blank()
    {
      assert slots[i].Own() == {};
      ghost var free := mem.pmm.Free();
      ok := Start(i, id, app, file);
      PutBack(free, slots[i].Own());
      Traded(i);
    }

    /** The endpoint table after messages went in or out. */
    twostate lemma Delivered()
      requires Shaped() && old(Valid()) && endpoints.Valid()
      requires forall k :: 0 <= k < Ipc.ENDPOINTS ==> Owners.SameEnd(old(endpoints.slots)[k], endpoints.slots[k])
      requires forall i :: 0 <= i < |slots| ==> unchanged(slots[i]) && unchanged(slots[i].space)
      requires unchanged(kernel) && unchanged(mem) && unchanged(mem.pmm)
      requires unchanged(mem.pmm.usable) && unchanged(mem.pmm.used)
      ensures Valid() && SameStrays() && Pool() == old(Pool())
    {
      assert Handles() == old(Handles()) && Pids() == old(Pids());
      assert Separated(3) by {
        OldSeparated();
        OpenSeparated();
      }
      OldLinked();
      Owners.Unmoved(old(endpoints.slots), endpoints.slots, Handles(), Pids());
      OpenLinked();
    }

    /** ipc_send by the process in a slot. */
    method Send(i: nat, handle: nat, data: seq<Byte>) returns (done: bool)
      requires Valid() && i < |slots| && handle < 0x1_0000_0000_0000_0000
      modifies endpoints
      ensures Valid() && SameStrays() && Pool() == old(Pool())
      ensures Ipc.Sent(old(endpoints.slots), endpoints.slots, handle, slots[i].pid, data, done)
    {
      done := endpoints.Send(handle, slots[i].pid, data);
      Owners.SentSame(old(endpoints.slots), endpoints.slots, handle, slots[i].pid, data, done);
      Delivered();
    }

    /** The first message leaves the endpoint of a slot, if it fits. */
    method Collect(i: nat, capacity: nat) returns (done: bool, m: Ipc.Message)
      requires Valid() && i < |slots|
      modifies endpoints
      ensures Valid() && SameStrays() && Pool() == old(Pool())
      ensures Ipc.Received(old(endpoints.slots), endpoints.slots, slots[i].endpoint, slots[i].pid, capacity, done, m)
    {
      HandleFits(i);
      done, m := endpoints.Receive(slots[i].endpoint, slots[i].pid, capacity);
      Owners.ReceivedSame(old(endpoints.slots), endpoints.slots, slots[i].endpoint, slots[i].pid, capacity, done, m);
      Delivered();
    }

    lemma HandleFits(i: nat)
      requires Valid() && i < |slots|
      ensures slots[i].endpoint < 0x1_0000_0000_0000_0000
    {
      SlotRests(i);
      slots[i].OpenRest();
    }

    /**
    The receive call of the program in a slot, from its own endpoint: the first message leaves the queue and
    stands in the buffer, and the program sees no other change.
    */
    method Receive(i: nat, address: nat, capacity: nat) returns (r: Receipt)
      requires Valid() && i < |slots| && address < U64 && capacity < U64
      modifies slots[i], mem`bytes, endpoints
      ensures Valid() && SameStrays() && Pool() == old(Pool()) && Lives(i)
      ensures r == old(Answer(Ipc.Front(endpoints.slots, slots[i].endpoint, slots[i].pid), address, capacity,
                              slots[i].space.Cleared(address, capacity, true)))
      ensures !r.Got? ==> endpoints.slots == old(endpoints.slots) && mem.bytes == old(mem.bytes)
      ensures r.Got? ==>
        && Ipc.Received(old(endpoints.slots), endpoints.slots, slots[i].endpoint, slots[i].pid, capacity, true,
                        r.message)
        && Overwritten(mem.words, slots[i].space.root, old(mem.bytes), mem.bytes, address, r.message.data)
    {
      r := Examine(i, address, capacity);
      Complete(i, address, capacity, r);
    }

    /** What the answer brings about. */
    method Complete(i: nat, address: nat, capacity: nat, r: Receipt)
      requires Valid() && i < |slots| && address < U64 && capacity < U64
      requires r.Got? ==>
        && Ipc.Front(endpoints.slots, slots[i].endpoint, slots[i].pid) == Some(r.message)
        && |r.message.data| <= capacity && slots[i].space.Cleared(address, capacity, true)
        && (r.message.data != [] ==> address < 0x8000_0000_0000)
      modifies slots[i], mem`bytes, endpoints
      ensures Valid() && SameStrays() && Pool() == old(Pool()) && Lives(i)
      ensures !r.Got? ==> endpoints.slots == old(endpoints.slots) && mem.bytes == old(mem.bytes)
      ensures r.Got? ==>
        && Ipc.Received(old(endpoints.slots), endpoints.slots, slots[i].endpoint, slots[i].pid, capacity, true,
                        r.message)
        && Overwritten(mem.words, slots[i].space.root, old(mem.bytes), mem.bytes, address, r.message.data)
    {
      Alike(mem.words, mem.bytes, slots[i].space.root);
      if r.Got? {
        if r.message.data != [] { BufferOpen(i, address, capacity); }
        TakeMessage(i, address, capacity, r.message);
      }
    }

    /** The tests before a message is copied. */
    method Examine(i: nat, address: nat, capacity: nat) returns (r: Receipt)
      requires Valid() && i < |slots| && address < U64 && capacity < U64
      ensures r == Answer(Ipc.Front(endpoints.slots, slots[i].endpoint, slots[i].pid), address, capacity,
                          slots[i].space.Cleared(address, capacity, true))
    {
      HandleFits(i);
      var front := endpoints.Peek(slots[i].endpoint, slots[i].pid);
      if front.None? { return Nothing; }
      if capacity == 0 || capacity > Ipc.MESSAGE_MAX { return Refused; }
      var cleared := slots[i].space.RangeAccessible(address, capacity, true);
      if !cleared || |front.value.data| > capacity { return Refused; }
      if |front.value.data| > 0 && address >= 0x8000_0000_0000 { return KernelFault; }
      return Got(front.value);
    }

    /** The addresses of a cleared buffer below 2^47 are the program's to write. */
    lemma BufferOpen(i: nat, address: nat, capacity: nat)
      requires Valid() && i < |slots| && slots[i].space.Cleared(address, capacity, true) && address < 0x8000_0000_0000
      ensures slots[i].space.root != 0
      ensures forall va: nat :: address <= va < address + capacity ==> slots[i].space.Accessible(va, true)
    {
      SlotRests(i);
      assert slots[i].space.Passes(address, true);
      slots[i].space.ClearedWhole(address, capacity, true);
    }

    /** The copy and the departure of a message. */
    method TakeMessage(i: nat, address: nat, capacity: nat, m: Ipc.Message)
      requires Valid() && i < |slots|
      requires Ipc.Front(endpoints.slots, slots[i].endpoint, slots[i].pid) == Some(m) && |m.data| <= capacity
      requires m.data != [] ==> slots[i].space.root != 0
      requires forall va: nat :: address <= va < address + |m.data| ==> slots[i].space.Accessible(va, true)
      modifies slots[i], mem`bytes, endpoints
      ensures Valid() && SameStrays() && Pool() == old(Pool()) && Lives(i)
      ensures Ipc.Received(old(endpoints.slots), endpoints.slots, slots[i].endpoint, slots[i].pid, capacity, true, m)
      ensures Overwritten(mem.words, slots[i].space.root, old(mem.bytes), mem.bytes, address, m.data)
    {
      Alike(mem.words, mem.bytes, slots[i].space.root);
      if m.data != [] { Deposit(i, address, m.data); }
      ghost var es := endpoints.slots;
      var done, message := Collect(i, capacity);
      Ipc.ReceivedFront(es, endpoints.slots, slots[i].endpoint, slots[i].pid, capacity, done, message);
    }

    /**
    Any run of stops, restarts, messages and stores by the programs keeps the slots apart, and loses neither a
    page nor an endpoint. A program that is neither stopped nor restarted goes on with its endpoint, its
    translations and the contents of its read-only pages.
    */
    method Play(commands: seq<Command>)
      requires Valid() && forall c :: c in commands ==> Proper(c)
      modifies slots, set p | p in slots :: p.space, mem, mem.pmm, mem.pmm.usable, mem.pmm.used, endpoints
      ensures Valid() && Pool() == old(Pool()) && SameStrays()
      ensures forall i :: 0 <= i < |slots| && Spared(commands, i) ==> Lives(i)
    {
      for k := 0 to |commands|
        invariant Valid() && Pool() == old(Pool()) && SameStrays()
        invariant forall i :: 0 <= i < |slots| && Spared(commands, i) ==> Lives(i)
      {
        var c := commands[k];
        assert c in commands;
        ghost var es, hs, w, b := endpoints.slots, Handles(), mem.words, mem.bytes;
        label before:
        Do(c);
        Owners.SameStraysTrans(old(endpoints.slots), old(Handles()), es, hs, endpoints.slots, Handles());
        forall i | 0 <= i < |slots| && Spared(commands, i) ensures Lives(i) {
          assert !Ends(c, i);
          assert Lives@before(i);
          if slots[i].space.root != 0 {
            StandsTrans(old(mem.words), old(mem.bytes), slots[i].space.root, w, b, mem.words, mem.bytes);
          }
        }
      }
    }

    /** No command ends the program in a slot. */
    static predicate Spared(commands: seq<Command>, i: nat) {
      forall c :: c in commands ==> !Ends(c, i)
    }

    static predicate Ends(c: Command, i: nat) { c.slot == i && (c.Stop? || c.Restart?) }

    ghost predicate Proper(c: Command) {
      && c.slot < |slots| && (c.Restart? ==> Loadable(c.file, 3)) && (c.Send? ==> c.handle < U64)
      && (c.Receive? ==> c.address < U64 && c.capacity < U64)
    }

    method Do(c: Command)
      requires Valid() && Proper(c)
      modifies slots[c.slot], slots[c.slot].space, mem, mem.pmm, mem.pmm.usable, mem.pmm.used, endpoints
      ensures Valid() && Pool() == old(Pool()) && SameStrays() && OthersGoOn(c.slot)
      ensures c.Stop? || c.Restart? || Lives(c.slot)
    {
      match c
      case Stop(i) => DoStop(i);
      case Restart(i, id, app, file) => DoRestart(i, id, app, file);
      case Store(i, va, byte) => DoStore(i, va, byte);
      case Send(i, handle, data) => DoSend(i, handle, data);
      case Receive(i, address, capacity) => DoReceive(i, address, capacity);
    }

    method DoStop(i: nat)
      requires Valid() && i < |slots|
      modifies slots[i], slots[i].space, mem.pmm, mem.pmm.usable, mem.pmm.used, endpoints
      ensures Valid() && Pool() == old(Pool()) && SameStrays() && OthersGoOn(i)
    {
      Halt(i);
      OthersLive(i);
    }

    method DoRestart(i: nat, id: nat, app: nat, file: seq<Byte>)
      requires Valid() && i < |slots| && Loadable(file, 3)
      modifies slots[i], slots[i].space, mem, mem.pmm, mem.pmm.usable, mem.pmm.used, endpoints
      ensures Valid() && Pool() == old(Pool()) && SameStrays() && OthersGoOn(i)
    {
      var ok := Restart(i, id, app, file);
      OthersLive(i);
    }

    method DoStore(i: nat, va: nat, byte: Byte)
      requires Valid() && i < |slots|
      modifies slots[i], mem`bytes
      ensures Valid() && Pool() == old(Pool()) && SameStrays() && OthersGoOn(i) && Lives(i)
    {
      var ok := Store(i, va, byte);
      Traded(i);
      OthersLive(i);
    }

    method DoSend(i: nat, handle: nat, data: seq<Byte>)
      requires Valid() && i < |slots| && handle < U64
      modifies endpoints
      ensures Valid() && Pool() == old(Pool()) && SameStrays() && OthersGoOn(i) && Lives(i)
    {
      var done := Send(i, handle, data);
      OthersLive(i);
      Alike(mem.words, mem.bytes, slots[i].space.root);
    }

    method DoReceive(i: nat, address: nat, capacity: nat)
      requires Valid() && i < |slots| && address < U64 && capacity < U64
      modifies slots[i], mem`bytes, endpoints
      ensures Valid() && Pool() == old(Pool()) && SameStrays() && OthersGoOn(i) && Lives(i)
    {
      var r := Receive(i, address, capacity);
      OthersLive(i);
    }

    /** A change to slot `i` that trades pages with the free pages only keeps the slots separate. */
    twostate lemma Kept(i: nat)
      requires i < |slots| && Shaped() && old(Separated(3)) && mem.Valid() && mem.pmm.managed == old(mem.pmm.managed)
      requires slots[i].Resting() && unchanged(kernel)
      requires slots[i].Own() <= old(mem.pmm.Free() + slots[i].Own())
      requires mem.pmm.Free() <= old(mem.pmm.Free() + slots[i].Own())
      requires forall j :: 0 <= j < |slots| && j != i ==> unchanged(slots[j]) && unchanged(slots[j].space)
      requires Outside(old(mem.words), mem.words, old(mem.bytes), mem.bytes, old(mem.pmm.Free()))
      ensures Separated(3)
      ensures forall j :: 0 <= j < |slots| && j != i ==> slots[j].Own() == old(slots[j].Own())
    {
      Others(i);
      Apart(i);
      OldSeparated();
      OpenSeparated();
    }

    /** The other slots still rest. */
    twostate lemma Others(i: nat)
      requires i < |slots| && Shaped() && old(Separated(3)) && mem.Valid() && mem.pmm.managed == old(mem.pmm.managed)
      requires forall j :: 0 <= j < |slots| && j != i ==> unchanged(slots[j]) && unchanged(slots[j].space)
      requires Outside(old(mem.words), mem.words, old(mem.bytes), mem.bytes, old(mem.pmm.Free()))
      requires mem.pmm.Free() <= old(mem.pmm.Free() + slots[i].Own()) && unchanged(kernel)
      ensures kernel.Valid()
      ensures forall j :: 0 <= j < |slots| && j != i ==> slots[j].Resting() && slots[j].Own() == old(slots[j].Own())
    {
      OldSeparated();
      KernelFrame(old(mem.words), mem.words, kernel.nodes, kernel.root);
      forall j | 0 <= j < |slots| && j != i ensures slots[j].Resting() && slots[j].Own() == old(slots[j].Own()) {
        slots[j].Used();
        slots[j].Undisturbed(old(mem.pmm.Free()));
      }
    }

    /** A store into a page of slot `i` leaves the other slots alone. */
    twostate lemma StoreKept(i: nat)
      requires i < |slots| && Shaped() && old(Valid()) && slots[i].Resting() && unchanged(endpoints)
      requires unchanged(kernel) && mem.words == old(mem.words)
      requires unchanged(mem.pmm) && unchanged(mem.pmm.usable) && unchanged(mem.pmm.used)
      requires forall j :: 0 <= j < |slots| && j != i ==> unchanged(slots[j])
      requires forall j :: 0 <= j < |slots| ==> unchanged(slots[j].space)
      requires slots[i].Own() == old(slots[i].Own())
      requires slots[i].endpoint == old(slots[i].endpoint) && slots[i].pid == old(slots[i].pid)
      requires Outside(old(mem.words), mem.words, old(mem.bytes), mem.bytes, slots[i].Own())
      ensures Valid() && forall j :: 0 <= j < |slots| && j != i ==> slots[j].SameContents()
    {
      StoreSeparated(i);
      assert Linked(3) by {
        OldLinked();
        assert Handles() == old(Handles()) && Pids() == old(Pids());
        OpenLinked();
      }
    }

    twostate lemma StoreSeparated(i: nat)
      requires i < |slots| && Shaped() && old(Separated(3)) && slots[i].Resting()
      requires unchanged(kernel) && mem.words == old(mem.words)
      requires unchanged(mem.pmm) && unchanged(mem.pmm.usable) && unchanged(mem.pmm.used)
      requires forall j :: 0 <= j < |slots| && j != i ==> unchanged(slots[j])
      requires forall j :: 0 <= j < |slots| ==> unchanged(slots[j].space)
      requires slots[i].Own() == old(slots[i].Own())
      requires Outside(old(mem.words), mem.words, old(mem.bytes), mem.bytes, slots[i].Own())
      ensures Separated(3) && forall j :: 0 <= j < |slots| && j != i ==> slots[j].SameContents()
    {
      StoreOthers(i);
      OldSeparated();
      OpenSeparated();
    }

    twostate lemma StoreOthers(i: nat)
      requires i < |slots| && Shaped() && old(Separated(3)) && mem.words == old(mem.words)
      requires unchanged(mem.pmm) && unchanged(mem.pmm.usable) && unchanged(mem.pmm.used)
      requires forall j :: 0 <= j < |slots| && j != i ==> unchanged(slots[j])
      requires forall j :: 0 <= j < |slots| ==> unchanged(slots[j].space)
      requires slots[i].Own() == old(slots[i].Own())
      requires Outside(old(mem.words), mem.words, old(mem.bytes), mem.bytes, slots[i].Own())
      ensures forall j :: 0 <= j < |slots| && j != i ==> slots[j].Resting() && slots[j].SameContents()
    {
      OldSeparated();
      forall j | 0 <= j < |slots| && j != i ensures slots[j].Resting() && slots[j].SameContents() {
        slots[j].Undisturbed(slots[i].Own());
      }
    }

    /** The endpoint of a stopped slot is closed, and the others stay. */
    twostate lemma StopLinks(i: nat)
      requires i < |slots| && old(endpoints.Valid()) && old(Linked(3)) && endpoints.Valid() && slots[i].endpoint == 0
      requires forall j :: 0 <= j < |slots| && j != i ==> unchanged(slots[j])
      requires old(slots[i].endpoint) == 0 ==> endpoints.slots == old(endpoints.slots)
      requires old(slots[i].endpoint) != 0 ==> Ipc.Closed(old(endpoints.slots), endpoints.slots, old(slots[i].endpoint))
      ensures Linked(3) && SameStrays()
      ensures old(slots[i].endpoint) != 0 ==> !Ipc.IsOpen(endpoints.slots, old(slots[i].endpoint))
      ensures Ipc.SomeUnused(endpoints.slots) <==> old(slots[i].endpoint != 0 || Ipc.SomeUnused(endpoints.slots))
    {
      OldLinked();
      var hs, pids := old(Handles()), old(Pids());
      assert Handles() == hs[i := 0] && Pids() == pids[i := slots[i].pid];
      if old(slots[i].endpoint) != 0 {
        Owners.Dropped(old(endpoints.slots), endpoints.slots, hs, pids, i, slots[i].pid);
        Owners.Unused(old(endpoints.slots), endpoints.slots, hs, pids, i);
      } else {
        Owners.Unmoved(endpoints.slots, endpoints.slots, hs, pids);
        Owners.Repid(endpoints.slots, hs, pids, i, slots[i].pid);
      }
      OpenLinked();
    }

    /** A started slot has its endpoint open, a failed one none, and the others stay. */
    twostate lemma StartLinks(i: nat)
      requires i < |slots| && old(endpoints.Valid()) && old(Linked(3))
      requires endpoints.Valid() && old(slots[i].endpoint) == 0
      requires forall j :: 0 <= j < |slots| && j != i ==> unchanged(slots[j])
      requires slots[i].endpoint == 0 ==> Ipc.SameInUse(old(endpoints.slots), endpoints.slots)
      requires slots[i].endpoint != 0 ==>
        Ipc.Created(old(endpoints.slots), endpoints.slots, slots[i].pid, slots[i].endpoint)
      ensures Linked(3) && SameStrays()
    {
      OldLinked();
      var hs, pids := old(Handles()), old(Pids());
      assert Handles() == hs[i := slots[i].endpoint] && Pids() == pids[i := slots[i].pid];
      if slots[i].endpoint != 0 {
        Owners.Gained(old(endpoints.slots), endpoints.slots, hs, pids, i, slots[i].pid, slots[i].endpoint);
      } else {
        Owners.Unmoved(old(endpoints.slots), endpoints.slots, hs, pids);
        Owners.Repid(endpoints.slots, hs, pids, i, slots[i].pid);
      }
      OpenLinked();
    }

    /** Pages that were free or its own belong to no other slot and not to the kernel. */
    twostate lemma Apart(i: nat)
      requires i < |slots| && Shaped() && old(Separated(3)) && slots[i].Own() <= old(mem.pmm.Free() + slots[i].Own())
      requires forall j :: 0 <= j < |slots| && j != i ==> slots[j].Own() == old(slots[j].Own())
      requires unchanged(kernel)
      ensures OffKernel(slots[i]) && forall j :: 0 <= j < |slots| && j != i ==> slots[i].Own() !! slots[j].Own()
    {
      OldSeparated();
      forall j | 0 <= j < |slots| && j != i ensures slots[i].Own() !! slots[j].Own() {
        slots[j].Used();
      }
    }
  }
}
