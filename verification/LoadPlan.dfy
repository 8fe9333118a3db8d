/**
The books of a process load: which pages are taken, what the address space maps, what the pages hold, and
what a stack, a surface and the segments of an image look like as a plan of placed pages.
*/
module LoadPlans {
  import opened Common
  import opened Counting
  import opened PageTables
  import opened Pmm
  import opened Paging
  import opened UserSpaces
  import opened ElfImages
  import Capabilities

  const CODE_OFFSET: nat := 0x1000
  const STACK_OFFSET: nat := 0x20_0000
  const SURFACE_OFFSET: nat := 0x40_0000
  const SURFACE_PAGES: nat := 18
  const SURFACE_BYTES: nat := 71680

  // ------------------------------------------------------------------- ownership

  /** Of the pages `start`, the frames `tables` and `data` are taken, each once, and `free` is the rest. */
  ghost predicate Ledger(start: set<nat>, free: set<nat>, tables: seq<nat>, data: seq<nat>) {
    && free == start - Pages(tables) - Pages(data) && Pages(tables) <= start && Pages(data) <= start
    && Pages(tables) !! Pages(data) && Unique(data)
    && forall f :: f in data ==> f % 4096 == 0
  }

  lemma LedgerTables(start: set<nat>, w: Words, w': Words, ts: seq<nat>, ts': seq<nat>, free: set<nat>,
      free': set<nat>, data: seq<nat>)
    requires Ledger(start, free, ts, data) && Acquired(w, w', ts, ts', free, free')
    ensures Ledger(start, free', ts', data)
  {
    OpenAcquired(w, w', ts, ts', free, free');
    var new_ := ts'[|ts|..];
    assert ts' == ts + new_;
    PagesConcat(ts, new_);
    PagesWithin(new_, free);
  }

  lemma {:induction false} PagesWithin(frames: seq<nat>, s: set<nat>)
    requires forall f :: f in frames ==> f / 4096 in s
    ensures Pages(frames) <= s
  {
    if frames != [] { PagesWithin(frames[..|frames| - 1], s); }
  }

  lemma PagesAppend(frames: seq<nat>, f: nat)
    ensures Pages(frames + [f]) == Pages(frames) + {f / 4096}
  {}

  lemma LedgerPage(start: set<nat>, free: set<nat>, tables: seq<nat>, data: seq<nat>, f: nat)
    requires Ledger(start, free, tables, data) && f % 4096 == 0 && f / 4096 in free
    ensures Ledger(start, free - {f / 4096}, tables, data + [f]) && f !in data
  {}

  /** `n` consecutive frames. */
  function Frames(address: nat, n: nat): (r: seq<nat>)
    ensures |r| == n && forall k :: 0 <= k < n ==> r[k] == address + 4096 * k
  {
    if n == 0 then [] else Frames(address, n - 1) + [address + 4096 * (n - 1)]
  }

  lemma FramePage(address: nat, k: nat)
    requires address % 4096 == 0
    ensures (address + 4096 * k) % 4096 == 0 && (address + 4096 * k) / 4096 == address / 4096 + k
  {}

  lemma SpanLast(free: set<nat>, first: nat, n: nat)
    ensures free - Span(first, n + 1) == free - Span(first, n) - {first + n}
  {}

  lemma {:induction false} LedgerRun(start: set<nat>, free: set<nat>, tables: seq<nat>, data: seq<nat>, address: nat,
      n: nat)
    requires Ledger(start, free, tables, data) && address % 4096 == 0 && RunAt(free, address / 4096, n)
    ensures Ledger(start, free - Span(address / 4096, n), tables, data + Frames(address, n))
  {
    if n == 0 {
      assert data + Frames(address, n) == data && free - Span(address / 4096, n) == free;
    } else {
      LedgerRun(start, free, tables, data, address, n - 1);
      LedgerNext(start, free, tables, data, address, n - 1);
    }
  }

  lemma LedgerNext(start: set<nat>, free: set<nat>, tables: seq<nat>, data: seq<nat>, address: nat, n: nat)
    requires Ledger(start, free - Span(address / 4096, n), tables, data + Frames(address, n))
    requires address % 4096 == 0 && address / 4096 + n in free
    ensures Ledger(start, free - Span(address / 4096, n + 1), tables, data + Frames(address, n + 1))
  {
    var f, free', data' := address + 4096 * n, free - Span(address / 4096, n), data + Frames(address, n);
    FramePage(address, n);
    SpanLast(free, address / 4096, n);
    assert data + Frames(address, n + 1) == data' + [f];
    LedgerPage(start, free', tables, data', f);
  }

  // ------------------------------------------------------------------ what is mapped

  /** A user page: where it lies, in which frame, with which rights, and what it holds. */
  datatype Placement = Placement(va: nat, frame: nat, writable: bool, executable: bool, content: seq<nat>)

  function MappingOf(p: Placement, nx: bool): Mapping {
    var e := MakeEntry(p.frame, Attributes(nx, p.writable, p.executable));
    Mapping(e.address, e.bits)
  }

  function Lookup(ps: seq<Placement>, nx: bool, v: Vpn): Option<Mapping> {
    if ps == [] then None
    else
      var p := ps[|ps| - 1];
      if Split(p.va) == v then Some(MappingOf(p, nx)) else Lookup(ps[..|ps| - 1], nx, v)
  }

  /** No page is placed twice. */
  ghost predicate Once(ps: seq<Placement>) {
    ps == [] || (Lookup(ps[..|ps| - 1], false, Split(ps[|ps| - 1].va)) == None && Once(ps[..|ps| - 1]))
  }

  /** No frame is placed twice. */
  ghost predicate Single(ps: seq<Placement>) {
    ps == [] || (Unplaced(ps[..|ps| - 1], ps[|ps| - 1].frame) && Single(ps[..|ps| - 1]))
  }

  ghost predicate Unplaced(ps: seq<Placement>, f: nat) { forall p :: p in ps ==> p.frame != f }

  lemma {:induction false} OneFrame(ps: seq<Placement>, p: Placement, q: Placement)
    requires Single(ps) && p in ps && q in ps && p.frame == q.frame
    ensures p == q
  {
    var front, last := ps[..|ps| - 1], ps[|ps| - 1];
    assert forall x :: x in ps ==> x == last || x in front;
    if p in front && q in front { OneFrame(front, p, q); }
  }

  lemma {:induction false} LookupNx(ps: seq<Placement>, nx: bool, v: Vpn)
    ensures Lookup(ps, nx, v).Some? <==> Lookup(ps, false, v).Some?
  {
    if ps != [] { LookupNx(ps[..|ps| - 1], nx, v); }
  }

  /** A placed page is found by its address. */
  lemma {:induction false} LookupPlaced(ps: seq<Placement>, nx: bool, p: Placement)
    requires Once(ps) && p in ps
    ensures Lookup(ps, nx, Split(p.va)) == Some(MappingOf(p, nx))
  {
    var front, last := ps[..|ps| - 1], ps[|ps| - 1];
    assert ps == front + [last];
    if p != last {
      LookupPlaced(front, nx, p);
      LookupNx(front, nx, Split(p.va));
    }
  }

  /** The whole user half of the space is the list of placements: nothing else is mapped. */
  ghost predicate SpaceIs(w: Words, root: nat, nx: bool, ps: seq<Placement>) {
    forall v: Vpn :: UserResolve(w, root, v) == Lookup(ps, nx, v)
  }

  lemma SpaceSame(w: Words, w': Words, root: nat, nx: bool, ps: seq<Placement>)
    requires SpaceIs(w, root, nx, ps) && SameUser(w, w', root)
    ensures SpaceIs(w', root, nx, ps)
  {}

  lemma SpaceMapped(w: Words, w': Words, root: nat, nx: bool, ps: seq<Placement>, p: Placement)
    requires SpaceIs(w, root, nx, ps) && UserMapped(w, w', root, Split(p.va), MappingOf(p, nx))
    ensures SpaceIs(w', root, nx, ps + [p])
  {}

  /** The frames of the placements hold their contents, a page each. */
  ghost predicate Written(bytes: map<nat, seq<nat>>, ps: seq<Placement>) {
    forall p :: p in ps ==> p.frame in bytes && bytes[p.frame] == p.content && |p.content| == 4096
  }

  /** Frames of pages outside `start` are as they were. */
  ghost predicate Outside(w: Words, w': Words, b: map<nat, seq<nat>>, b': map<nat, seq<nat>>, start: set<nat>) {
    && (forall f: nat, i: nat :: f % 4096 != 0 || f / 4096 !in start ==> Entry(w', f, i) == Entry(w, f, i))
    && (forall f: nat :: f / 4096 !in start ==> (f in b' <==> f in b))
    && (forall f: nat :: f / 4096 !in start && f in b' && f in b ==> b'[f] == b[f])
  }

  /** The tables are back: the frames `data` are what is missing from `start`. */
  ghost predicate Unwinding(start: set<nat>, managed: set<nat>, free: set<nat>, data: seq<nat>) {
    && start <= managed && free == start - Pages(data) && Pages(data) <= start && Unique(data)
    && forall f :: f in data ==> f % 4096 == 0
  }

  lemma {:induction false} UniqueWithout(a: seq<nat>, f: nat, b: seq<nat>)
    requires Unique(a + [f] + b)
    ensures Unique(a + b) && f !in a + b
  {
    if b == [] {
      assert a + [f] + b == a + [f] && a + b == a;
      UniqueFront(a, f);
    } else {
      var front, x := b[..|b| - 1], b[|b| - 1];
      LastApart(a + [f], b);
      UniqueFront(a + [f] + front, x);
      UniqueWithout(a, f, front);
      Members(a, f, front);
      UniqueAppend(a + front, x);
      LastApart(a, b);
    }
  }

  lemma UniqueFront<T>(s: seq<T>, x: T)
    requires Unique(s + [x])
    ensures Unique(s) && x !in s
  {
    assert (s + [x])[..|s|] == s;
  }

  lemma Members<T>(a: seq<T>, f: T, b: seq<T>)
    ensures f in a + [f] + b && forall y :: y in a + b ==> y in a + [f] + b
  {
    assert (a + [f] + b)[|a|] == f;
  }

  lemma LastApart<T>(a: seq<T>, b: seq<T>)
    requires b != []
    ensures a + b == a + b[..|b| - 1] + [b[|b| - 1]]
  {}

  lemma UnwindOne(start: set<nat>, managed: set<nat>, free: set<nat>, a: seq<nat>, f: nat, b: seq<nat>)
    requires Unwinding(start, managed, free, a + [f] + b)
    ensures f % 4096 == 0 && f / 4096 in managed && f / 4096 !in free
    ensures Unwinding(start, managed, free + {f / 4096}, a + b)
  {
    assert f in a + [f] + b;
    UniqueWithout(a, f, b);
    PagesConcat(a + [f], b);
    PagesAppend(a, f);
    PagesConcat(a, b);
    assert forall g :: g in a + b ==> g in a + [f] + b;
    if f / 4096 in Pages(a + b) { SharedPage(a + b, f); }
  }

  lemma {:induction false} SharedPage(frames: seq<nat>, f: nat)
    requires f / 4096 in Pages(frames) && f % 4096 == 0 && forall g :: g in frames ==> g % 4096 == 0
    ensures f in frames
  {
    var front, last := frames[..|frames| - 1], frames[|frames| - 1];
    assert frames == front + [last];
    assert forall g :: g in front ==> g in frames;
    if f / 4096 in Pages(front) { SharedPage(front, f); } else { assert last in frames && f / 4096 == last / 4096; }
  }

  lemma SpanStep(first: nat, n: nat)
    ensures Span(first, n + 1) == Span(first, n) + {first + n}
  {}

  lemma {:induction false} FramesPages(address: nat, n: nat)
    requires address % 4096 == 0
    ensures Pages(Frames(address, n)) == Span(address / 4096, n)
  {
    if n > 0 {
      var f := address + 4096 * (n - 1);
      FramesPages(address, n - 1);
      assert f / 4096 == address / 4096 + (n - 1) by { FramePage(address, n - 1); }
      SpanStep(address / 4096, n - 1);
      PagesAppend(Frames(address, n - 1), f);
    }
  }

  /** The frames of a process's data pages, in the order it got them. */
  function Fixed(stack: nat, surface: nat, surfacePages: nat): seq<nat> {
    (if stack != 0 then [stack] else []) + (if surface != 0 then Frames(surface, surfacePages) else [])
  }

  /** A page of `amount` file bytes from `from`, and zeros. */
  function PageBytes(file: seq<Byte>, from: nat, amount: nat): (page: seq<nat>)
    requires from + amount <= |file| && amount <= 4096
    ensures |page| == 4096
  {
    seq(4096, i requires 0 <= i < 4096 => if i < amount then file[from + i] else 0)
  }

  const ZERO_PAGE := PageBytes([], 0, 0)

  lemma CopyByte(file: seq<Byte>, from: nat, amount: nat)
    requires from + amount < |file| && amount < 4096
    ensures PageBytes(file, from, amount)[amount := file[from + amount]] == PageBytes(file, from, amount + 1)
  {}

  lemma OutsideTables(w0: Words, w: Words, w': Words, b0: map<nat, seq<nat>>, b: map<nat, seq<nat>>, start: set<nat>,
                      ts: seq<nat>, ts': seq<nat>, free: set<nat>, free': set<nat>)
    requires Outside(w0, w, b0, b, start) && Acquired(w, w', ts, ts', free, free')
    requires Pages(ts') <= start && forall f :: f in ts' ==> f % 4096 == 0
    ensures Outside(w0, w', b0, b, start)
  {
    OpenAcquired(w, w', ts, ts', free, free');
  }

  /** Frames taken for tables enter the ledger. */
  lemma Grown(start: set<nat>, w0: Words, w: Words, w': Words, b0: map<nat, seq<nat>>, b: map<nat, seq<nat>>,
              ts: seq<nat>, ts': seq<nat>, free: set<nat>, free': set<nat>, data: seq<nat>, managed: set<nat>)
    requires Ledger(start, free, ts, data) && Outside(w0, w, b0, b, start) && Acquired(w, w', ts, ts', free, free')
    requires InUse(Elements(ts'), managed, free')
    ensures Ledger(start, free', ts', data) && Outside(w0, w', b0, b, start)
  {
    LedgerTables(start, w, w', ts, ts', free, free', data);
    assert forall f :: f in ts' ==> f in Elements(ts');
    OutsideTables(w0, w, w', b0, b, start, ts, ts', free, free');
  }

  /** The placed frames are data frames. */
  ghost predicate PlacedIn(ps: seq<Placement>, data: seq<nat>) {
    forall p :: p in ps ==> p.frame in data
  }

  /** What a load has to keep straight. */
  datatype Snapshot = Snapshot(
    words: Words, bytes: map<nat, seq<nat>>, free: set<nat>, tables: seq<nat>, data: seq<nat>,
    root: nat, nx: bool, placed: seq<Placement>)

  /**
  The state between the steps of a load that began with the free pages `start`: everything taken
  since is in the ledger, the space maps exactly the placements, their frames hold their contents,
  and no frame outside `start` differs from `w` and `b`. (Folded: it is n steps away from its body.)
  */
  ghost predicate Books(start: set<nat>, w: Words, b: map<nat, seq<nat>>, s: Snapshot, n: nat) {
    if n > 0 then Books(start, w, b, s, n - 1)
    else
      && Ledger(start, s.free, s.tables, s.data) && Outside(w, s.words, b, s.bytes, start)
      && SpaceIs(s.words, s.root, s.nx, s.placed) && Once(s.placed) && Written(s.bytes, s.placed)
      && PlacedIn(s.placed, s.data) && Single(s.placed)
  }

  lemma Unfold(start: set<nat>, w: Words, b: map<nat, seq<nat>>, s: Snapshot)
    ensures Books(start, w, b, s, 3) <==> Books(start, w, b, s, 0)
  {
    assert Books(start, w, b, s, 1) == Books(start, w, b, s, 0);
    assert Books(start, w, b, s, 2) == Books(start, w, b, s, 1);
  }

  /** A page after one byte was stored. */
  function Stored(page: seq<nat>, at: nat, byte: nat): seq<nat>
    requires at < |page|
  {
    page[at := byte]
  }

  /** The placements after the page in frame `f` was written. */
  ghost function Rewritten(ps: seq<Placement>, f: nat, page: seq<nat>): (r: seq<Placement>)
    ensures |r| == |ps|
    ensures forall i :: 0 <= i < |ps| ==> r[i] == if ps[i].frame == f then ps[i].(content := page) else ps[i]
  {
    seq(|ps|, i requires 0 <= i < |ps| => if ps[i].frame == f then ps[i].(content := page) else ps[i])
  }

  lemma {:induction false} RewrittenLookup(ps: seq<Placement>, f: nat, page: seq<nat>, nx: bool, v: Vpn)
    ensures Lookup(Rewritten(ps, f, page), nx, v) == Lookup(ps, nx, v)
  {
    if ps != [] {
      var front := ps[..|ps| - 1];
      RewrittenLookup(front, f, page, nx, v);
      assert Rewritten(ps, f, page)[..|ps| - 1] == Rewritten(front, f, page);
    }
  }

  lemma {:induction false} RewrittenOnce(ps: seq<Placement>, f: nat, page: seq<nat>)
    requires Once(ps)
    ensures Once(Rewritten(ps, f, page))
  {
    if ps != [] {
      var front, last := ps[..|ps| - 1], ps[|ps| - 1];
      RewrittenOnce(front, f, page);
      assert Rewritten(ps, f, page)[..|ps| - 1] == Rewritten(front, f, page);
      RewrittenLookup(front, f, page, false, Split(last.va));
    }
  }

  lemma {:induction false} RewrittenSingle(ps: seq<Placement>, f: nat, page: seq<nat>)
    requires Single(ps)
    ensures Single(Rewritten(ps, f, page))
  {
    if ps != [] {
      var front := ps[..|ps| - 1];
      RewrittenSingle(front, f, page);
      assert Rewritten(ps, f, page)[..|ps| - 1] == Rewritten(front, f, page);
      forall p | p in Rewritten(front, f, page) ensures p.frame != ps[|ps| - 1].frame {
        var i :| 0 <= i < |front| && Rewritten(front, f, page)[i] == p;
        assert front[i] in front;
      }
    }
  }

  /** Writing a data page of a resting process changes the contents of its placements and nothing else. */
  lemma StoreKeeps(start: set<nat>, s: Snapshot, s': Snapshot, f: nat, page: seq<nat>)
    requires Books(start, s.words, s.bytes, s, 3) && f in s.data && |page| == 4096
    requires s' == s.(bytes := s.bytes[f := page], placed := Rewritten(s.placed, f, page))
    ensures Books(start, s'.words, s'.bytes, s', 3)
  {
    Unfold(start, s.words, s.bytes, s);
    RewrittenOnce(s.placed, f, page);
    RewrittenSingle(s.placed, f, page);
    assert SpaceIs(s'.words, s'.root, s'.nx, s'.placed) by {
      forall v: Vpn ensures UserResolve(s'.words, s'.root, v) == Lookup(s'.placed, s'.nx, v) {
        RewrittenLookup(s.placed, f, page, s.nx, v);
      }
    }
    assert PlacedIn(s'.placed, s'.data) && Written(s'.bytes, s'.placed);
    Unfold(start, s'.words, s'.bytes, s');
  }

  lemma TakeKeeps(start: set<nat>, w: Words, b: map<nat, seq<nat>>, s: Snapshot, s': Snapshot, f: nat, page: seq<nat>)
    requires Books(start, w, b, s, 3) && f % 4096 == 0 && f / 4096 in s.free
    requires s' == s.(free := s.free - {f / 4096}, data := s.data + [f], bytes := s.bytes[f := page])
    ensures Books(start, w, b, s', 3) && Unplaced(s'.placed, f)
  {
    Unfold(start, w, b, s);
    LedgerPage(start, s.free, s.tables, s.data, f);
    assert PlacedIn(s'.placed, s'.data);
    assert Written(s'.bytes, s'.placed);
    assert Outside(w, s'.words, b, s'.bytes, start);
    Unfold(start, w, b, s');
  }

  lemma GrowKeeps(start: set<nat>, w: Words, b: map<nat, seq<nat>>, s: Snapshot, s': Snapshot, managed: set<nat>)
    requires Books(start, w, b, s, 3) && Acquired(s.words, s'.words, s.tables, s'.tables, s.free, s'.free)
    requires InUse(Elements(s'.tables), managed, s'.free) && SameUser(s.words, s'.words, s.root)
    requires s' == s.(words := s'.words, tables := s'.tables, free := s'.free)
    ensures Books(start, w, b, s', 3)
  {
    Unfold(start, w, b, s);
    Grown(start, w, s.words, s'.words, b, s.bytes, s.tables, s'.tables, s.free, s'.free, s.data, managed);
    SpaceSame(s.words, s'.words, s.root, s.nx, s.placed);
    Unfold(start, w, b, s');
  }

  lemma PlaceKeeps(start: set<nat>, w: Words, b: map<nat, seq<nat>>, s: Snapshot, s': Snapshot, managed: set<nat>,
      p: Placement)
    requires Books(start, w, b, s, 3) && Acquired(s.words, s'.words, s.tables, s'.tables, s.free, s'.free)
    requires InUse(Elements(s'.tables), managed, s'.free)
    requires UserResolve(s.words, s.root, Split(p.va)) == None
    requires UserMapped(s.words, s'.words, s.root, Split(p.va), MappingOf(p, s.nx))
    requires p.frame in s.data && p.frame in s.bytes && s.bytes[p.frame] == p.content && |p.content| == 4096
    requires Unplaced(s.placed, p.frame)
    requires s' == s.(words := s'.words, tables := s'.tables, free := s'.free, placed := s.placed + [p])
    ensures Books(start, w, b, s', 3)
  {
    Unfold(start, w, b, s);
    Grown(start, w, s.words, s'.words, b, s.bytes, s.tables, s'.tables, s.free, s'.free, s.data, managed);
    SpaceMapped(s.words, s'.words, s.root, s.nx, s.placed, p);
    LookupNx(s.placed, s.nx, Split(p.va));
    assert (s.placed + [p])[..|s.placed|] == s.placed;
    Unfold(start, w, b, s');
  }

  lemma BeginKeeps(start: set<nat>, w: Words, b: map<nat, seq<nat>>, s: Snapshot, source: nat)
    requires Copied(w, s.words, s.root, source, 512) && s.bytes == b
    requires s.tables == [s.root] && s.data == [] && s.placed == []
    requires s.root % 4096 == 0 && s.root / 4096 in start && s.free == start - {s.root / 4096}
    requires forall v: Vpn :: UserResolve(s.words, s.root, v) == None
    ensures Books(start, w, b, s, 3)
  {
    assert [s.root][..0] == [];
    assert Pages(s.tables) == {s.root / 4096} && Pages(s.data) == {};
    Unfold(start, w, b, s);
  }

  lemma RunKeeps(start: set<nat>, w: Words, b: map<nat, seq<nat>>, s: Snapshot, s': Snapshot, address: nat, n: nat)
    requires Books(start, w, b, s, 3) && address % 4096 == 0 && RunAt(s.free, address / 4096, n)
    requires s' == s.(free := s.free - Span(address / 4096, n), data := s.data + Frames(address, n))
    ensures Books(start, w, b, s', 3)
  {
    Unfold(start, w, b, s);
    LedgerRun(start, s.free, s.tables, s.data, address, n);
    assert PlacedIn(s'.placed, s'.data);
    Unfold(start, w, b, s');
  }

  /** The data frames of a process without image once it has a surface. */
  lemma SurfaceTaken(stack: nat, pages: nat, f: nat)
    requires f != 0
    ensures Fixed(stack, f, 18) + [] == Fixed(stack, 0, pages) + [] + Frames(f, 18)
  {}

  /** A data frame that is not placed yet may be written. */
  lemma WriteKeeps(start: set<nat>, w: Words, b: map<nat, seq<nat>>, s: Snapshot, s': Snapshot, f: nat, page: seq<nat>)
    requires Books(start, w, b, s, 3) && f in s.data && Unplaced(s.placed, f)
    requires s' == s.(bytes := s.bytes[f := page])
    ensures Books(start, w, b, s', 3)
  {
    Unfold(start, w, b, s);
    assert f / 4096 in Pages(s.data);
    assert Outside(w, s'.words, b, s'.bytes, start);
    Unfold(start, w, b, s');
  }

  // ------------------------------------------------------------------ memory needed

  /** The pages of a set that lie below `r`. */
  ghost function Below(s: set<nat>, r: nat): set<nat> { set p | p in s && p < r }

  /** A run of `count` pages with `k` pages of the set below it. */
  ghost predicate RunAbove(s: set<nat>, k: nat, count: nat) {
    exists r: nat :: RunAt(s, r, count) && |Below(s, r)| >= k
  }

  /** A run is left after the `k` lowest pages were taken exactly if there was one with `k` pages below it. */
  lemma RunLeft(s: set<nat>, free: set<nat>, k: nat, count: nat)
    requires FromBelow(s, free) && |s| == |free| + k && count > 0
    ensures HasRun(free, count) <==> RunAbove(s, k, count)
  {
    TakenCount(s, free);
    if HasRun(free, count) {
      var r: nat :| RunAt(free, r, count);
      assert r in free && RunAt(s, r, count);
      SubsetSize(s - free, Below(s, r));
    }
    if RunAbove(s, k, count) {
      var r: nat :| RunAt(s, r, count) && |Below(s, r)| >= k;
      forall q | r <= q < r + count ensures q in free {
        if q !in free { LowRun(s, free, r, q); }
      }
      assert RunAt(free, r, count);
    }
  }

  lemma TakenCount(s: set<nat>, free: set<nat>)
    requires free <= s
    ensures |s - free| == |s| - |free|
  {
    assert s == free + (s - free);
  }

  /** If a page at or above `r` is gone, everything below `r` is gone, and that page besides. */
  lemma LowRun(s: set<nat>, free: set<nat>, r: nat, q: nat)
    requires FromBelow(s, free) && q in s && q !in free && r <= q
    ensures |Below(s, r)| < |s - free|
  {
    assert Below(s, r) <= s - free - {q};
    SubsetSize(Below(s, r), s - free - {q});
  }

  /** Tables, stack, surface and image pages of a process with `pages` image pages. */
  function PagesNeeded(app: nat, pages: nat): nat {
    5 + (if app != 0 then SURFACE_PAGES + 1 else 0) + ImageCost(false, pages)
  }

  /** The pages an image takes: its own and, unless there is one, a table for them. */
  function ImageCost(table: bool, pages: nat): nat {
    if pages == 0 then 0 else pages + if table then 0 else 1
  }

  lemma CostMore(table: bool, page: nat, pages: nat)
    requires page < pages
    ensures ImageCost(table, page) + ImageCost(table || page > 0, 1) == ImageCost(table, page + 1)
    ensures ImageCost(table, page + 1) <= ImageCost(table, pages)
  {}

  /** The free pages suffice: enough of them and, for an application, 18 in a row above the five lowest. */
  ghost predicate Enough(free: set<nat>, app: nat, pages: nat) {
    |free| >= PagesNeeded(app, pages) && (app != 0 ==> RunAbove(free, 5, SURFACE_PAGES))
  }

  // The places of the leaf tables: image, stack and surface lie in successive 2 MiB regions.
  const IMAGE_TABLE := Leaf(USER_SLOT, 0, 0)
  const STACK_TABLE := Leaf(USER_SLOT, 0, 1)
  const SURFACE_TABLE := Leaf(USER_SLOT, 0, 2)
  const BASE_TABLES := {Root, Mid(USER_SLOT), Low(USER_SLOT, 0), STACK_TABLE}

  lemma StackRegion()
    ensures Split(USER_BASE + STACK_OFFSET) == Vpn(USER_SLOT, 0, 1, 0)
  {
    PageDigits(0x800_0200, 0);
  }

  lemma StackSplit(x: nat)
    requires x < 4096
    ensures Split(USER_BASE + STACK_OFFSET + x) == Split(USER_BASE + STACK_OFFSET)
  {
    PageSplit(USER_BASE + STACK_OFFSET, x);
  }

  lemma SurfaceSplit(x: nat)
    ensures Split(USER_BASE + SURFACE_OFFSET + x) == Split(USER_BASE + SURFACE_OFFSET + 4096 * (x / 4096))
  {
    PageSplit(0x80_0040_0000, x);
  }

  /** The offsets of the first and the last byte of the surface in their pages. */
  lemma SurfaceEnds()
    ensures (USER_BASE + SURFACE_OFFSET) % 4096 == 0
    ensures (USER_BASE + SURFACE_OFFSET + SURFACE_BYTES - 1) % 4096 == 2047 && (SURFACE_BYTES - 1) / 4096 == 17
  {
    assert USER_BASE + SURFACE_OFFSET == 4096 * 0x800_0400;
    assert USER_BASE + SURFACE_OFFSET + SURFACE_BYTES - 1 == 4096 * 0x800_0411 + 2047;
  }

  lemma SurfaceRegion(k: nat)
    requires k < SURFACE_PAGES
    ensures Split(USER_BASE + SURFACE_OFFSET + 4096 * k) == Vpn(USER_SLOT, 0, 2, k)
  {
    PageDigits(0x800_0400 + k, 0);
  }

  lemma ImageRegion(va: nat)
    requires IMAGE_MIN <= va < IMAGE_MAX && va % 4096 == 0
    ensures Split(va).i4 == USER_SLOT && Split(va).i3 == 0 && Split(va).i2 == 0
  {
    PageDigits(va / 4096, 0);
  }

  /** The tables before an image page: those of the stack, perhaps those of the surface and of other image pages. */
  ghost predicate Based(sites: set<Node>) {
    BASE_TABLES <= sites <= BASE_TABLES + {SURFACE_TABLE, IMAGE_TABLE}
  }

  /** At most six tables, so the limit of sixteen never stops a load. */
  lemma BasedCount(sites: set<Node>)
    requires Based(sites)
    ensures |sites| <= 6
  {
    SubsetSize(sites, BASE_TABLES + {SURFACE_TABLE, IMAGE_TABLE});
    assert BASE_TABLES + {SURFACE_TABLE, IMAGE_TABLE} ==
      {Root, Mid(USER_SLOT), Low(USER_SLOT, 0), STACK_TABLE, SURFACE_TABLE, IMAGE_TABLE};
  }

  lemma BasedImage(sites: set<Node>, v: Vpn)
    requires Based(sites) && v.i4 == USER_SLOT && v.i3 == 0 && v.i2 == 0
    ensures Lacking(sites, v) == (if IMAGE_TABLE in sites then 0 else 1)
    ensures sites + Path(v) == sites + {IMAGE_TABLE} && Based(sites + Path(v))
    ensures forall free: nat :: Affords(sites, |sites|, free, v) <==> free >= Lacking(sites, v)
  {
    BasedCount(sites);
  }

  ghost function SurfaceTables(some: bool): set<Node> {
    if some then BASE_TABLES + {SURFACE_TABLE} else BASE_TABLES
  }

  lemma SurfaceLacking(some: bool, k: nat)
    ensures var v, sites := Vpn(USER_SLOT, 0, 2, k), SurfaceTables(some);
      && Lacking(sites, v) == (if some then 0 else 1) && sites + Path(v) == SurfaceTables(true)
      && forall free: nat :: Affords(sites, |sites|, free, v) <==> free >= Lacking(sites, v)
  {
    BasedCount(SurfaceTables(some));
  }

  lemma RunTaken(free: set<nat>, first: nat, n: nat)
    requires RunAt(free, first, n)
    ensures |free - Span(first, n)| == |free| - n
  {
    SpanSize(first, n);
    assert Span(first, n) <= free;
    TakenCount(free, Span(first, n));
  }

  /** The address of a user page. */
  predicate UserPage(va: nat) { va % 4096 == 0 && USER_BASE <= va < 2 * USER_BASE }

  predicate Elsewhere(p: Placement, va: nat) { p.va != va && UserPage(p.va) }

  /** Nothing is placed at `va`. */
  ghost predicate Vacant(ps: seq<Placement>, va: nat) {
    forall p :: p in ps ==> Elsewhere(p, va)
  }

  lemma VacantLookup(ps: seq<Placement>, nx: bool, va: nat)
    requires Vacant(ps, va) && UserPage(va)
    ensures Lookup(ps, nx, Split(va)) == None
  {
    if Lookup(ps, nx, Split(va)).Some? {
      var p := LookupWitness(ps, nx, Split(va));
      SplitInjective(p.va, va);
    }
  }

  /** Nothing is placed where a segment goes. */
  ghost predicate ClearFor(ps: seq<Placement>, s: Segment) {
    forall k: nat :: k < s.pageCount ==> Vacant(ps, PageAddress(s, k))
  }

  function PageAddress(s: Segment, k: nat): nat { s.virtualAddress + 4096 * k }

  lemma SegmentPage(s: Segment, size: nat, k: nat)
    requires SegmentOk(s, size, IMAGE_MIN, IMAGE_MAX) && k < s.pageCount
    ensures UserPage(PageAddress(s, k)) && IMAGE_MIN <= PageAddress(s, k) < IMAGE_MAX
  {}

  /** A page of a segment, and the table it needs. */
  lemma ImagePage(s: Segment, size: nat, k: nat, sites: set<Node>)
    requires SegmentOk(s, size, IMAGE_MIN, IMAGE_MAX) && k < s.pageCount && Based(sites)
    ensures
      var v := Split(PageAddress(s, k));
      && UserPage(PageAddress(s, k)) && Lacking(sites, v) == (if IMAGE_TABLE in sites then 0 else 1)
      && sites + Path(v) == sites + {IMAGE_TABLE} && Based(sites + Path(v))
      && forall free: nat :: Affords(sites, |sites|, free, v) <==> free >= Lacking(sites, v)
  {
    SegmentPage(s, size, k);
    ImageRegion(PageAddress(s, k));
    BasedImage(sites, Split(PageAddress(s, k)));
  }

  lemma VacantBoth(a: seq<Placement>, b: seq<Placement>, va: nat)
    requires Vacant(a, va) && Vacant(b, va)
    ensures Vacant(a + b, va)
  {}

  /** The next page of a segment is vacant. */
  lemma SegmentVacant(ps: seq<Placement>, file: seq<Byte>, s: Segment, frames: seq<nat>)
    requires SegmentOk(s, |file|, IMAGE_MIN, IMAGE_MAX) && ClearFor(ps, s) && |frames| < s.pageCount
    ensures Vacant(ps + SegmentPlan(file, s, frames), PageAddress(s, |frames|))
  {
    var va := PageAddress(s, |frames|);
    forall p | p in SegmentPlan(file, s, frames) ensures Elsewhere(p, va) {
      var k: nat :| k < |frames| && SegmentPlan(file, s, frames)[k] == p;
      assert p.va == PageAddress(s, k) by { SegmentPlanAt(file, s, frames, k); }
      assert UserPage(PageAddress(s, k)) by { SegmentPage(s, |file|, k); }
    }
    VacantBoth(ps, SegmentPlan(file, s, frames), va);
  }

  lemma {:induction false} SurfaceApart(surface: nat, n: nat, va: nat)
    requires n <= SURFACE_PAGES && UserPage(va)
    requires va < USER_BASE + SURFACE_OFFSET || USER_BASE + SURFACE_OFFSET + 4096 * n <= va
    ensures Vacant(SurfacePlan(surface, n), va)
  {
    if n > 0 {
      SurfaceApart(surface, n - 1, va);
      assert UserPage(USER_BASE + SURFACE_OFFSET + 4096 * (n - 1));
    }
  }

  /** The next surface page is vacant. */
  lemma SurfaceVacant(stack: nat, surface: nat, page: nat)
    requires page < SURFACE_PAGES
    ensures UserPage(USER_BASE + SURFACE_OFFSET + 4096 * page)
    ensures Vacant(BasePlan(stack, surface, page), USER_BASE + SURFACE_OFFSET + 4096 * page)
  {
    SurfaceApart(surface, page, USER_BASE + SURFACE_OFFSET + 4096 * page);
    assert Elsewhere(StackPlan(stack), USER_BASE + SURFACE_OFFSET + 4096 * page);
  }

  /** The image range is neither stack nor surface. */
  lemma BaseApart(stack: nat, surface: nat, pages: nat, va: nat)
    requires UserPage(va) && IMAGE_MIN <= va < IMAGE_MAX && pages <= SURFACE_PAGES
    ensures Vacant(BasePlan(stack, surface, pages), va)
  {
    SurfaceApart(surface, pages, va);
    assert Elsewhere(StackPlan(stack), va);
  }

  /** A page of a segment is no page of one that lies apart. */
  lemma ApartPages(s: Segment, t: Segment, size: nat, k: nat, m: nat)
    requires SegmentOk(s, size, IMAGE_MIN, IMAGE_MAX) && SegmentOk(t, size, IMAGE_MIN, IMAGE_MAX) && Apart(t, s)
    requires k < s.pageCount && m < t.pageCount
    ensures PageAddress(s, k) != PageAddress(t, m)
  {}

  lemma EarlierApart(file: seq<Byte>, ss: seq<Segment>, i: nat, frames: seq<nat>, k: nat)
    requires Fits(file, ss) && i < |ss| && InFile(file, ss[..i]) && |frames| == SumPages(ss[..i]) && k < ss[i].pageCount
    ensures Vacant(ImagePlan(file, ss[..i], frames), PageAddress(ss[i], k))
  {
    forall p | p in ImagePlan(file, ss[..i], frames) ensures Elsewhere(p, PageAddress(ss[i], k)) {
      var t, m := PlanAddress(file, ss[..i], frames, p);
      var j :| 0 <= j < i && ss[j] == t;
      assert ss[j] in ss && ss[i] in ss && Apart(ss[j], ss[i]);
      SegmentPage(t, |file|, m);
      ApartPages(ss[i], t, |file|, k, m);
    }
  }

  lemma PlanAddress(file: seq<Byte>, ss: seq<Segment>, frames: seq<nat>, p: Placement) returns (s: Segment, k: nat)
    requires InFile(file, ss) && |frames| == SumPages(ss) && p in ImagePlan(file, ss, frames)
    ensures s in ss && k < s.pageCount && p.va == PageAddress(s, k)
  {
    s, k := PlanPage(file, ss, frames, p);
  }

  /** The stack, the surface and the earlier segments leave the place of a segment clear. */
  lemma ImageClear(stack: nat, surface: nat, pages: nat, file: seq<Byte>, ss: seq<Segment>, i: nat, frames: seq<nat>)
    requires Fits(file, ss) && i < |ss| && pages <= SURFACE_PAGES
    requires InFile(file, ss[..i]) && |frames| == SumPages(ss[..i])
    ensures ClearFor(BasePlan(stack, surface, pages) + ImagePlan(file, ss[..i], frames), ss[i])
  {
    assert ss[i] in ss;
    forall k: nat | k < ss[i].pageCount
      ensures Vacant(BasePlan(stack, surface, pages) + ImagePlan(file, ss[..i], frames), PageAddress(ss[i], k))
    {
      SegmentPage(ss[i], |file|, k);
      BaseApart(stack, surface, pages, PageAddress(ss[i], k));
      EarlierApart(file, ss, i, frames, k);
      VacantBoth(BasePlan(stack, surface, pages), ImagePlan(file, ss[..i], frames), PageAddress(ss[i], k));
    }
  }

  function SurfacePage(surface: nat, k: nat): Placement {
    Placement(USER_BASE + SURFACE_OFFSET + 4096 * k, surface + 4096 * k, true, false, ZERO_PAGE)
  }

  /** The pages of the application surface. */
  function SurfacePlan(surface: nat, n: nat): (r: seq<Placement>)
    ensures |r| == n
    ensures forall k :: 0 <= k < n ==> r[k].frame == surface + 4096 * k
  {
    if n == 0 then []
    else SurfacePlan(surface, n - 1) + [SurfacePage(surface, n - 1)]
  }

  function StackPlan(stack: nat): Placement {
    Placement(USER_BASE + STACK_OFFSET, stack, true, false, ZERO_PAGE)
  }

  /** What every process starts with: its stack and, for an application, its surface. */
  function BasePlan(stack: nat, surface: nat, surfacePages: nat): seq<Placement> {
    [StackPlan(stack)] + SurfacePlan(surface, surfacePages)
  }

  // --------------------------------------------------------------------- image plans

  /** Page `k` of a segment: the next 4096 bytes of the file part, as far as they go. */
  function PagePlan(file: seq<Byte>, s: Segment, k: nat, frame: nat): Placement
    requires s.fileOffset + s.fileSize <= |file|
  {
    var copied := Min(4096 * k, s.fileSize);
    Placement(s.virtualAddress + 4096 * k, frame, Writable(s.flags), Executable(s.flags),
              PageBytes(file, s.fileOffset + copied, Min(4096, s.fileSize - copied)))
  }

  function SegmentPlan(file: seq<Byte>, s: Segment, frames: seq<nat>): (r: seq<Placement>)
    requires s.fileOffset + s.fileSize <= |file|
    ensures |r| == |frames|
  {
    if frames == [] then []
    else SegmentPlan(file, s, frames[..|frames| - 1]) + [PagePlan(file, s, |frames| - 1, frames[|frames| - 1])]
  }

  lemma SegmentPlanMore(file: seq<Byte>, s: Segment, frames: seq<nat>, f: nat)
    requires s.fileOffset + s.fileSize <= |file|
    ensures SegmentPlan(file, s, frames + [f]) == SegmentPlan(file, s, frames) + [PagePlan(file, s, |frames|, f)]
  {}

  predicate InFile(file: seq<Byte>, ss: seq<Segment>) {
    forall s :: s in ss ==> s.fileOffset + s.fileSize <= |file|
  }

  /** The pages of all segments, in order. */
  function ImagePlan(file: seq<Byte>, ss: seq<Segment>, frames: seq<nat>): seq<Placement>
    requires InFile(file, ss) && |frames| == SumPages(ss)
  {
    if ss == [] then []
    else
      var front, s := ss[..|ss| - 1], ss[|ss| - 1];
      ImagePlan(file, front, frames[..SumPages(front)]) + SegmentPlan(file, s, frames[SumPages(front)..])
  }

  lemma OwnUsed(s: Snapshot)
    requires Books(s.free + (Pages(s.tables) + Pages(s.data)), s.words, s.bytes, s, 3)
    ensures s.free !! Pages(s.tables) + Pages(s.data)
  {
    Unfold(s.free + (Pages(s.tables) + Pages(s.data)), s.words, s.bytes, s);
  }

  /** The books of a process whose pages nobody else wrote or freed. */
  lemma KeptBooks(s: Snapshot, s': Snapshot, nodes: map<nat, Node>, touched: set<nat>)
    requires
      var own := Pages(s.tables) + Pages(s.data);
      Books(s.free + own, s.words, s.bytes, s, 3) && (s'.free - s.free) !! own && touched !! own
    requires s' == s.(words := s'.words, bytes := s'.bytes, free := s'.free)
    requires Outside(s.words, s'.words, s.bytes, s'.bytes, touched)
    requires Folded(s.words, nodes, s.root, 3) && nodes.Keys == Elements(s.tables)
    ensures Folded(s'.words, nodes, s.root, 3)
    ensures Books(s'.free + (Pages(s.tables) + Pages(s.data)), s'.words, s'.bytes, s', 3)
  {
    var own := Pages(s.tables) + Pages(s.data);
    Unfold(s.free + own, s.words, s.bytes, s);
    Fold(s.words, nodes, s.root);
    forall f, i: nat | f in nodes ensures Entry(s'.words, f, i) == Entry(s.words, f, i) {
      assert f in s.tables;
    }
    UserFrame(s.words, s'.words, nodes, s.root);
    Fold(s'.words, nodes, s.root);
    SpaceSame(s.words, s'.words, s.root, s.nx, s.placed);
    KeptBytes(s, s', touched);
    var start := s'.free + own;
    assert s'.free == start - Pages(s.tables) - Pages(s.data);
    Unfold(start, s'.words, s'.bytes, s');
  }

  lemma KeptBytes(s: Snapshot, s': Snapshot, touched: set<nat>)
    requires Written(s.bytes, s.placed) && PlacedIn(s.placed, s.data) && touched !! Pages(s.data)
    requires s'.placed == s.placed && Outside(s.words, s'.words, s.bytes, s'.bytes, touched)
    ensures Written(s'.bytes, s'.placed)
  {}

  lemma SettleBooks(start: set<nat>, w: Words, b: map<nat, seq<nat>>, s: Snapshot)
    requires Books(start, w, b, s, 3)
    ensures var own := Pages(s.tables) + Pages(s.data);
      own <= start && s.free == start - own && Books(s.free + own, s.words, s.bytes, s, 3)
    ensures Outside(w, s.words, b, s.bytes, start)
  {
    Unfold(start, w, b, s);
    var own := Pages(s.tables) + Pages(s.data);
    assert s.free + own == start;
    Unfold(s.free + own, s.words, s.bytes, s);
  }

  /** A user read at offset `at` of the mapped page gives `value`; the page has exactly the attributes `bits`. */
  ghost predicate ReadsAs(bytes: map<nat, seq<nat>>, m: Option<Mapping>, bits: set<nat>, at: nat, value: nat) {
    && m.Some? && m.value.bits == bits && m.value.address in bytes
    && at < |bytes[m.value.address]| && bytes[m.value.address][at] == value
  }

  lemma SpaceSeen(start: set<nat>, w: Words, b: map<nat, seq<nat>>, s: Snapshot, v: Vpn)
    requires Books(start, w, b, s, 3)
    ensures UserResolve(s.words, s.root, v) == Lookup(s.placed, s.nx, v)
  {
    Unfold(start, w, b, s);
  }

  lemma PlacedSeen(start: set<nat>, w: Words, b: map<nat, seq<nat>>, s: Snapshot, p: Placement)
    requires Books(start, w, b, s, 3) && p in s.placed
    ensures UserResolve(s.words, s.root, Split(p.va)) == Some(MappingOf(p, s.nx))
    ensures p.frame in s.bytes && s.bytes[p.frame] == p.content && p.frame / 4096 in start && p.frame in s.data
  {
    Unfold(start, w, b, s);
    LookupPlaced(s.placed, s.nx, p);
    assert p.frame / 4096 in Pages(s.data);
  }

  lemma PlacedPage(start: set<nat>, w: Words, b: map<nat, seq<nat>>, s: Snapshot, p: Placement)
    requires Books(start, w, b, s, 3) && p in s.placed
    ensures |p.content| == 4096
  {
    Unfold(start, w, b, s);
  }

  lemma SmallEntry(p: Placement, nx: bool)
    requires p.frame / 4096 < 0x100_0000_0000
    ensures MappingOf(p, nx) == Mapping(p.frame, Attributes(nx, p.writable, p.executable))
  {}

  /** What a mapped page of a segment reads as. */
  lemma PlacedByte(bytes: map<nat, seq<nat>>, nx: bool, file: seq<Byte>, s: Segment, x: nat, p: Placement)
    requires s.fileOffset + s.fileSize <= |file| && p == PagePlan(file, s, x / 4096, p.frame)
    requires p.frame in bytes && bytes[p.frame] == p.content && p.frame / 4096 < 0x100_0000_0000
    ensures ReadsAs(bytes, Some(MappingOf(p, nx)), Attributes(nx, Writable(s.flags), Executable(s.flags)), x % 4096,
                    if x < s.fileSize then file[s.fileOffset + x] else 0)
  {}

  lemma SeenByte(words: Words, root: nat, bytes: map<nat, seq<nat>>, nx: bool, file: seq<Byte>, s: Segment, x: nat,
      p: Placement)
    requires s.fileOffset + s.fileSize <= |file|
    requires p == PagePlan(file, s, x / 4096, p.frame) && s.virtualAddress % 4096 == 0
    requires UserResolve(words, root, Split(p.va)) == Some(MappingOf(p, nx))
    requires p.frame in bytes && bytes[p.frame] == p.content && p.frame / 4096 < 0x100_0000_0000
    ensures ReadsAs(bytes, UserResolve(words, root, Split(s.virtualAddress + x)),
                    Attributes(nx, Writable(s.flags), Executable(s.flags)), x % 4096,
                    if x < s.fileSize then file[s.fileOffset + x] else 0)
  {
    PageSplit(s.virtualAddress, x);
    PlacedByte(bytes, nx, file, s, x, p);
  }

  lemma WritableBits(p: Placement)
    requires !(p.writable && p.executable) && W in MappingOf(p, true).bits
    ensures NX in MappingOf(p, true).bits
  {}

  function FlatSegment(file: seq<Byte>): Segment {
    Segment(0, |file|, IMAGE_MIN, |file|, 5, (|file| + 4095) / 4096)
  }

  lemma FlatPlan(file: seq<Byte>)
    requires 0 < (|file| + 4095) / 4096 <= MAX_IMAGE_PAGES
    ensures Fits(file, [FlatSegment(file)]) && SumPages([FlatSegment(file)]) == (|file| + 4095) / 4096
  {
    assert SumPages([FlatSegment(file)]) == SumPages([]) + FlatSegment(file).pageCount;
    assert SegmentOk(FlatSegment(file), |file|, IMAGE_MIN, IMAGE_MAX);
  }

  lemma {:induction false} LookupWitness(ps: seq<Placement>, nx: bool, v: Vpn) returns (p: Placement)
    requires Lookup(ps, nx, v).Some?
    ensures p in ps && Split(p.va) == v && Lookup(ps, nx, v) == Some(MappingOf(p, nx))
  {
    p := ps[|ps| - 1];
    if Split(p.va) != v { p := LookupWitness(ps[..|ps| - 1], nx, v); }
  }

  lemma {:induction false} SegmentPlanAt(file: seq<Byte>, s: Segment, frames: seq<nat>, k: nat)
    requires s.fileOffset + s.fileSize <= |file| && k < |frames|
    ensures SegmentPlan(file, s, frames)[k] == PagePlan(file, s, k, frames[k])
  {
    if k < |frames| - 1 { SegmentPlanAt(file, s, frames[..|frames| - 1], k); }
  }

  /** Every page of every segment is in the plan. */
  lemma {:induction false} PageInPlan(file: seq<Byte>, ss: seq<Segment>, frames: seq<nat>, s: Segment, k: nat)
    returns (p: Placement)
    requires InFile(file, ss) && |frames| == SumPages(ss) && s in ss && k < s.pageCount
    ensures p in ImagePlan(file, ss, frames) && p == PagePlan(file, s, k, p.frame)
  {
    var front, last := ss[..|ss| - 1], ss[|ss| - 1];
    if s == last {
      SegmentPlanAt(file, s, frames[SumPages(front)..], k);
      p := SegmentPlan(file, s, frames[SumPages(front)..])[k];
    } else {
      assert s in front;
      p := PageInPlan(file, front, frames[..SumPages(front)], s, k);
    }
  }

  /** Every placement of the plan is a page of some segment. */
  lemma {:induction false} PlanPage(file: seq<Byte>, ss: seq<Segment>, frames: seq<nat>, p: Placement)
    returns (s: Segment, k: nat)
    requires InFile(file, ss) && |frames| == SumPages(ss) && p in ImagePlan(file, ss, frames)
    ensures s in ss && k < s.pageCount && p == PagePlan(file, s, k, p.frame)
  {
    var front, last := ss[..|ss| - 1], ss[|ss| - 1];
    if p in ImagePlan(file, front, frames[..SumPages(front)]) {
      s, k := PlanPage(file, front, frames[..SumPages(front)], p);
    } else {
      var rest := frames[SumPages(front)..];
      s := last;
      k :| 0 <= k < |rest| && SegmentPlan(file, last, rest)[k] == p;
      SegmentPlanAt(file, last, rest, k);
    }
  }

  lemma SplitInjective(a: nat, c: nat)
    requires a % 4096 == 0 && c % 4096 == 0 && USER_BASE <= a < 2 * USER_BASE && USER_BASE <= c < 2 * USER_BASE
    requires Split(a) == Split(c)
    ensures a == c
  {
    PageDigits(a / 4096, 0);
    PageDigits(c / 4096, 0);
    DigitsIs(a / 4096);
    DigitsIs(c / 4096);
  }

  lemma DigitsIs(n: nat)
    ensures n == n / 0x4_0000 * 0x4_0000 + n / 512 % 512 * 512 + n % 512
    ensures 0x800_0000 <= n < 0x1000_0000 ==> n / 0x4_0000 == 512 + n / 0x4_0000 % 512
  {}

  /** A placement of a process: never writable and executable, and not the page below the stack. */
  predicate Proper(p: Placement) {
    && !(p.writable && p.executable) && p.va % 4096 == 0 && USER_BASE <= p.va < 2 * USER_BASE
    && p.va != USER_BASE + STACK_OFFSET - 4096
  }

  lemma PlacedRights(file: seq<Byte>, stack: nat, surface: nat, pages: nat, ss: seq<Segment>, frames: seq<nat>,
      p: Placement)
    requires Fits(file, ss) && |frames| == SumPages(ss) && pages <= SURFACE_PAGES
    requires p in BasePlan(stack, surface, pages) + ImagePlan(file, ss, frames)
    ensures Proper(p)
  {
    if p in ImagePlan(file, ss, frames) {
      var s, k := PlanPage(file, ss, frames, p);
      SegmentRights(file, s, k, p.frame);
    } else if p in SurfacePlan(surface, pages) {
      SurfaceRights(surface, pages, p);
    }
  }

  /** The stack and the surface lie above the image range. */
  lemma BaseAbove(stack: nat, surface: nat, pages: nat, p: Placement)
    requires p in BasePlan(stack, surface, pages)
    ensures p.va / 4096 >= IMAGE_MAX / 4096
  {
    if p in SurfacePlan(surface, pages) { SurfaceRights(surface, pages, p); }
  }

  lemma PageCovers(base: nat, k: nat, n: nat, va: nat)
    requires base % 4096 == 0 && k < n && (base + 4096 * k) / 4096 == va / 4096
    ensures base <= va < base + 4096 * n
  {}

  /** A page of a segment belongs to a loadable header. */
  lemma HeaderOfPage(file: seq<Byte>, s: Segment, k: nat, va: nat)
    requires FileHeaderOk(file) && s in Segments(file) && SegmentOk(s, |file|, IMAGE_MIN, IMAGE_MAX)
    requires k < s.pageCount && (s.virtualAddress + 4096 * k) / 4096 == va / 4096
    ensures Loaded(file, va)
  {
    var ps := Headers(file, HeaderCount(file));
    var i := LoadsFrom(ps, s);
    PageCovers(s.virtualAddress, k, s.pageCount, va);
    CoveringPages(s.pageCount, s.memorySize);
    assert Covers(ps[i], va);
  }

  /** What is placed in the image range belongs to a loadable header. */
  lemma PlacedAt(file: seq<Byte>, stack: nat, surface: nat, pages: nat, frames: seq<nat>, p: Placement, va: nat)
    requires FileHeaderOk(file) && Fits(file, Segments(file)) && |frames| == SumPages(Segments(file))
    requires p.va / 4096 == va / 4096 < IMAGE_MAX / 4096
    requires p in BasePlan(stack, surface, pages) + ImagePlan(file, Segments(file), frames)
    ensures Loaded(file, va)
  {
    assert p in ImagePlan(file, Segments(file), frames) by {
      if p in BasePlan(stack, surface, pages) { BaseAbove(stack, surface, pages, p); }
    }
    var s, k := PlanPage(file, Segments(file), frames, p);
    HeaderOfPage(file, s, k, va);
  }

  lemma CoveringPages(n: nat, size: nat)
    requires 4096 * n < size + 4096 && size <= 4096 * n
    ensures n == (size + 4095) / 4096
  {}

  lemma SegmentRights(file: seq<Byte>, s: Segment, k: nat, frame: nat)
    requires SegmentOk(s, |file|, IMAGE_MIN, IMAGE_MAX) && k < s.pageCount
    ensures Proper(PagePlan(file, s, k, frame))
  {}

  lemma {:induction false} SurfacePlanned(surface: nat, n: nat, k: nat)
    requires k < n
    ensures SurfacePage(surface, k) in SurfacePlan(surface, n)
  {
    if k < n - 1 { SurfacePlanned(surface, n - 1, k); }
  }

  /** The page of the surface `x` bytes in. */
  lemma SurfacePlace(surface: nat, n: nat, x: nat) returns (p: Placement)
    requires x < 4096 * n
    ensures p in SurfacePlan(surface, n) && p.frame == surface + 4096 * (x / 4096)
    ensures p.writable && !p.executable && p.content == ZERO_PAGE
    ensures Split(USER_BASE + SURFACE_OFFSET + x) == Split(p.va)
  {
    p := SurfacePage(surface, x / 4096);
    SurfacePlanned(surface, n, x / 4096);
    SurfaceSplit(x);
  }

  lemma {:induction false} SurfaceRights(surface: nat, n: nat, p: Placement)
    requires p in SurfacePlan(surface, n)
    ensures exists k: nat :: k < n && p == SurfacePage(surface, k)
  {
    if p in SurfacePlan(surface, n - 1) { SurfaceRights(surface, n - 1, p); }
  }

  const IMAGE_MIN: nat := 0x80_0000_1000
  const IMAGE_MAX: nat := 0x80_001F_F000

  function Segments(file: seq<Byte>): seq<Segment>
    requires FileHeaderOk(file)
  {
    Loads(Headers(file, HeaderCount(file)))
  }

  predicate ShortSegments(ss: seq<Segment>) {
    forall s :: s in ss ==> s.pageCount <= MAX_IMAGE_PAGES
  }

  /** No accepted segment is longer than sixteen pages. (Folded: n steps away from its body.) */
  ghost predicate Loadable(file: seq<Byte>, n: nat) {
    if n > 0 then Loadable(file, n - 1)
    else Accepted(file, IMAGE_MIN, IMAGE_MAX) ==> ShortSegments(Segments(file))
  }

  /** The image is accepted. (Folded: n steps away from its body.) */
  ghost predicate Good(file: seq<Byte>, n: nat) {
    if n > 0 then Good(file, n - 1) else Accepted(file, IMAGE_MIN, IMAGE_MAX)
  }

  /** The pages of an accepted image, folded likewise. */
  ghost function ImagePages(file: seq<Byte>, n: nat): nat {
    if n > 0 then ImagePages(file, n - 1)
    else if Accepted(file, IMAGE_MIN, IMAGE_MAX) then SumPages(Segments(file)) else 0
  }

  /** The segments and the entry point of an accepted image, folded likewise. */
  ghost predicate Describes(file: seq<Byte>, ss: seq<Segment>, at: nat, n: nat) {
    if n > 0 then Describes(file, ss, at, n - 1)
    else Accepted(file, IMAGE_MIN, IMAGE_MAX) && ss == Segments(file) && at == EntryPoint(file)
  }

  lemma OpenGood(file: seq<Byte>)
    ensures Good(file, 3) <==> Accepted(file, IMAGE_MIN, IMAGE_MAX)
    ensures Good(file, 3) ==> ImagePages(file, 3) == SumPages(Segments(file))
  {
    assert Good(file, 1) == Good(file, 0) && Good(file, 2) == Good(file, 1);
    assert ImagePages(file, 1) == ImagePages(file, 0) && ImagePages(file, 2) == ImagePages(file, 1);
  }

  lemma OpenDescribes(file: seq<Byte>, ss: seq<Segment>, at: nat)
    ensures Describes(file, ss, at, 3) <==>
      Accepted(file, IMAGE_MIN, IMAGE_MAX) && ss == Segments(file) && at == EntryPoint(file)
  {
    assert Describes(file, ss, at, 1) == Describes(file, ss, at, 0);
    assert Describes(file, ss, at, 2) == Describes(file, ss, at, 1);
  }

  /** The image fits the page list, every segment its file and its place, and no two segments meet. */
  ghost predicate Fits(file: seq<Byte>, ss: seq<Segment>) {
    && InFile(file, ss) && SumPages(ss) <= MAX_IMAGE_PAGES && AllApart(ss)
    && forall s :: s in ss ==> SegmentOk(s, |file|, IMAGE_MIN, IMAGE_MAX)
  }

  lemma AcceptedFits(file: seq<Byte>)
    requires Accepted(file, IMAGE_MIN, IMAGE_MAX) && ShortSegments(Segments(file))
    ensures Fits(file, Segments(file))
  {
    var ps := Headers(file, HeaderCount(file));
    AcceptedSegments(ps, |file|, IMAGE_MIN, IMAGE_MAX);
    BudgetExact(ps, |file|, IMAGE_MIN, IMAGE_MAX);
  }

  lemma LoadableFits(file: seq<Byte>)
    requires Accepted(file, IMAGE_MIN, IMAGE_MAX) && Loadable(file, 3)
    ensures Fits(file, Segments(file))
  {
    assert Loadable(file, 2) == Loadable(file, 1);
    assert Loadable(file, 1) == Loadable(file, 0);
    AcceptedFits(file);
  }

  lemma {:induction false} RoomFor(ss: seq<Segment>, i: nat)
    requires i < |ss|
    ensures SumPages(ss[..i]) + ss[i].pageCount <= SumPages(ss)
  {
    if i < |ss| - 1 {
      RoomFor(ss[..|ss| - 1], i);
      assert ss[..|ss| - 1][..i] == ss[..i];
    }
  }

  lemma ImagePlanMore(file: seq<Byte>, ss: seq<Segment>, i: nat, before: seq<nat>, frames: seq<nat>)
    requires i < |ss| && InFile(file, ss) && |before| == SumPages(ss[..i]) && |frames| == ss[i].pageCount
    ensures InFile(file, ss[..i + 1]) && |before + frames| == SumPages(ss[..i + 1]) && InFile(file, ss[..i])
    ensures ImagePlan(file, ss[..i + 1], before + frames) ==
      ImagePlan(file, ss[..i], before) + SegmentPlan(file, ss[i], frames)
  {
    var all := ss[..i + 1];
    assert all[..|all| - 1] == ss[..i] && all[|all| - 1] == ss[i];
    assert (before + frames)[..|before|] == before && (before + frames)[|before|..] == frames;
  }

  /** The surface pages are data frames, and none of them is the stack. */
  lemma StackApart(start: set<nat>, w: Words, b: map<nat, seq<nat>>, s: Snapshot, stack: nat, surface: nat, pages: nat,
      page: nat)
    requires Books(start, w, b, s, 3) && s.data == Fixed(stack, surface, pages)
    requires stack != 0 && surface != 0 && page < pages
    ensures surface + 4096 * page in s.data && surface + 4096 * page != stack
  {
    Unfold(start, w, b, s);
    var frames := Frames(surface, pages);
    assert s.data == [] + [stack] + frames;
    UniqueWithout([], stack, frames);
    assert frames[page] in [] + frames && s.data[page + 1] == frames[page];
  }

  /** The frame of the next surface page is not yet mapped. */
  lemma PlanApart(stack: nat, surface: nat, page: nat)
    requires surface + 4096 * page != stack
    ensures Unplaced(BasePlan(stack, surface, page), surface + 4096 * page)
  {}

  lemma PlanGrows(stack: nat, surface: nat, page: nat)
    ensures BasePlan(stack, surface, page + 1) == BasePlan(stack, surface, page) + [SurfacePage(surface, page)]
  {}

  /** What a prepared application may do: read the clock, read and await input, present and receive messages. */
  ghost predicate Ready(t: Capabilities.Table, pid: nat, appId: nat, surface: nat, endpoint: nat) {
    && t.principal == pid && Capabilities.FilledTo(t, 4)
    && Capabilities.Holds(t, 0, Capabilities.CLOCK, {Capabilities.READ}, 0)
    && Capabilities.Holds(t, 1, Capabilities.INPUT, {Capabilities.READ, Capabilities.WAIT}, appId)
    && Capabilities.Holds(t, 2, Capabilities.SURFACE, {Capabilities.PRESENT}, surface)
    && Capabilities.Holds(t, 3, Capabilities.IPC, {Capabilities.RECEIVE}, endpoint)
  }
}
