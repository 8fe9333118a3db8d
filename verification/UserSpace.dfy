/**
Per-process address spaces: a private root that shares the kernel's upper entries, at most
sixteen owned tables, and single 4 KiB user mappings in the slot of the user base.
*/
module UserSpaces {
  import opened Common
  import opened Counting
  import opened PageTables
  import opened Pmm
  import opened Paging

  const USER_BASE: nat := 0x80_0000_0000
  const USER_SLOT: nat := 1
  const MAX_TABLES: nat := 16

  /** The set bits of `h`, counted from position `k`. */
  function BitsFrom(h: nat, k: nat): (s: set<nat>)
    ensures s == {} <==> h == 0
    ensures forall b :: b in s ==> b >= k
  {
    if h == 0 then {} else (if h % 2 == 1 then {k} else {}) + BitsFrom(h / 2, k + 1)
  }

  /** The bits of a user mapping: no page is writable unless asked, and none executable unless asked once NX is on. */
  function Attributes(nx: bool, writable: bool, executable: bool): (bits: set<nat>)
    ensures bits <= {P, U, W, NX} && P in bits && U in bits
    ensures (W in bits <==> writable) && (NX in bits <==> nx && !executable)
  {
    {P, U} + (if writable then {W} else {}) + (if !executable && nx then {NX} else {})
  }

  /** The word `physical | flags`: the address field holds bits 12 to 51, higher bits join the flags. */
  function MakeEntry(physical: nat, flags: set<nat>): (e: Pte)
    ensures e.address == physical && e.bits == flags <==> physical < 0x10_0000_0000_0000
    ensures flags <= e.bits
  {
    Pte(physical % 0x10_0000_0000_0000, flags + BitsFrom(physical / 0x10_0000_0000_0000, 52))
  }

  /** The first frame that does not fit: its entry names frame 0 and has bit 52 set. */
  lemma FrameTooHigh(flags: set<nat>)
    ensures MakeEntry(0x10_0000_0000_0000, flags) == Pte(0, flags + {52})
  {
    assert BitsFrom(1, 52) == {52} + BitsFrom(0, 53);
  }

  // ---------------------------------------------------------------- user trees

  /** Present words of the tree are user entries; those that are no leaf are writable and not large. */
  ghost predicate UserOnly(w: Words, nodes: map<nat, Node>) {
    forall f, i: nat :: f in nodes && User(USER_SLOT).Owns(nodes[f], i) && P in Entry(w, f, i).bits ==>
      U in Entry(w, f, i).bits && (nodes[f].Leaf? || (W in Entry(w, f, i).bits && LARGE !in Entry(w, f, i).bits))
  }

  ghost predicate UserTree(w: Words, nodes: map<nat, Node>, root: nat) {
    && Tree(w, nodes, root, User(USER_SLOT)) && Private(w, root, USER_SLOT) && UserOnly(w, nodes)
    && forall f :: f in nodes && nodes[f].Root? ==> f == root
  }

  /** The place above a table. */
  function Parent(n: Node): Node {
    match n
    case Leaf(a, b, c) => Low(a, b)
    case Low(a, b) => Mid(a)
    case _ => Root
  }

  /** No place has two tables, the tables above a table exist, and each hangs under a present word. */
  ghost predicate Sited(w: Words, nodes: map<nat, Node>) {
    && (forall f, g :: f in nodes && g in nodes && nodes[f] == nodes[g] ==> f == g)
    && (forall f :: f in nodes && !nodes[f].Root? ==> Parent(nodes[f]) in nodes.Values)
    && (forall f, i: nat :: f in nodes && !nodes[f].Leaf? && Child(nodes[f], i) in nodes.Values ==>
      P in Entry(w, f, i).bits)
  }

  /** The places that have a table. (Folded: n steps away from its body.) */
  ghost function Places(nodes: map<nat, Node>, n: nat): set<Node> {
    if n == 0 then nodes.Values else Places(nodes, n - 1)
  }

  lemma FoldPlaces(nodes: map<nat, Node>)
    ensures Places(nodes, 3) == nodes.Values
  {
    assert Places(nodes, 1) == Places(nodes, 0);
    assert Places(nodes, 2) == Places(nodes, 1);
  }

  /** UserTree and Sited, folded so that the verifier unfolds them only on request (n > 0 steps away). */
  ghost predicate Folded(w: Words, nodes: map<nat, Node>, root: nat, n: nat) {
    if n == 0 then UserTree(w, nodes, root) && Sited(w, nodes) else Folded(w, nodes, root, n - 1)
  }

  lemma Fold(w: Words, nodes: map<nat, Node>, root: nat)
    ensures Folded(w, nodes, root, 3) <==> UserTree(w, nodes, root) && Sited(w, nodes)
  {
    assert Folded(w, nodes, root, 1) == Folded(w, nodes, root, 0);
    assert Folded(w, nodes, root, 2) == Folded(w, nodes, root, 1);
  }

  /** No user translation differs between `w` and `w'`. */
  ghost predicate SameUser(w: Words, w': Words, root: nat) {
    forall v: Vpn :: UserResolve(w', root, v) == UserResolve(w, root, v)
  }

  lemma SameUserTrans(w: Words, w1: Words, w2: Words, root: nat)
    requires SameUser(w, w1, root) && SameUser(w1, w2, root)
    ensures SameUser(w, w2, root)
  {}

  /** `w'` differs from `w` by the one page `s`, which now is `m`. */
  ghost predicate UserMapped(w: Words, w': Words, root: nat, s: Vpn, m: Mapping) {
    forall v: Vpn :: UserResolve(w', root, v) == if v == s then Some(m) else UserResolve(w, root, v)
  }

  lemma UserMappedTrans(w: Words, w1: Words, w2: Words, root: nat, s: Vpn, m: Mapping)
    requires SameUser(w, w1, root) && UserMapped(w1, w2, root, s, m)
    ensures UserMapped(w, w2, root, s, m)
  {}

  lemma AttachUser(w: Words, nodes: map<nat, Node>, root: nat, f: nat, i: nat, t: nat)
    requires UserTree(w, nodes, root) && f in nodes && !nodes[f].Leaf? && User(USER_SLOT).Owns(nodes[f], i)
    requires t !in nodes && P !in Entry(w, f, i).bits
    ensures UserTree(Attached(w, f, i, t, {P, W, U}), nodes[t := Child(nodes[f], i)], root)
    ensures SameUser(w, Attached(w, f, i, t, {P, W, U}), root)
  {
    var w', nodes' := Attached(w, f, i, t, {P, W, U}), nodes[t := Child(nodes[f], i)];
    AttachTree(w, nodes, root, User(USER_SLOT), f, i, t, {P, W, U});
    forall v: Vpn ensures UserResolve(w', root, v) == UserResolve(w, root, v) {
      UserAttachResolve(w, nodes, root, USER_SLOT, f, i, t, {P, W, U}, v);
    }
    AttachUserOnly(w, nodes, f, i, t);
    forall j | j != USER_SLOT ensures U !in Entry(w', root, j).bits {
      assert Entry(w', root, j) == Entry(w, root, j);
    }
  }

  lemma AttachFolded(w: Words, nodes: map<nat, Node>, root: nat, f: nat, i: nat, t: nat)
    requires Folded(w, nodes, root, 3) && f in nodes && !nodes[f].Leaf? && User(USER_SLOT).Owns(nodes[f], i)
    requires t !in nodes && P !in Entry(w, f, i).bits
    ensures Folded(Attached(w, f, i, t, {P, W, U}), nodes[t := Child(nodes[f], i)], root, 3)
    ensures SameUser(w, Attached(w, f, i, t, {P, W, U}), root)
    ensures nodes[t := Child(nodes[f], i)].Keys == nodes.Keys + {t}
    ensures Child(nodes[f], i) !in Places(nodes, 3)
    ensures Places(nodes[t := Child(nodes[f], i)], 3) == Places(nodes, 3) + {Child(nodes[f], i)}
  {
    FoldPlaces(nodes);
    FoldPlaces(nodes[t := Child(nodes[f], i)]);
    Fold(w, nodes, root);
    AttachSited(w, nodes, f, i, t);
    AttachUser(w, nodes, root, f, i, t);
    Fold(Attached(w, f, i, t, {P, W, U}), nodes[t := Child(nodes[f], i)], root);
  }

  /** A table hung under an absent word has a place of its own. */
  lemma AttachSited(w: Words, nodes: map<nat, Node>, f: nat, i: nat, t: nat)
    requires Sited(w, nodes) && f in nodes && !nodes[f].Leaf? && t !in nodes && P !in Entry(w, f, i).bits
    ensures Child(nodes[f], i) !in nodes.Values
    ensures nodes[t := Child(nodes[f], i)].Values == nodes.Values + {Child(nodes[f], i)}
    ensures Sited(Attached(w, f, i, t, {P, W, U}), nodes[t := Child(nodes[f], i)])
  {
    var child := Child(nodes[f], i);
    var nodes' := nodes[t := child];
    ValuesAdd(nodes, t, child);
    var w' := Attached(w, f, i, t, {P, W, U});
    assert Parent(child) == nodes[f];
    forall g, j: nat | g in nodes' && !nodes'[g].Leaf? && Child(nodes'[g], j) in nodes'.Values
      ensures P in Entry(w', g, j).bits
    {
      if g == t {
        ChildPlace(nodes, child, j);
      } else if (g, j) != (f, i) {
        assert Entry(w', g, j) == Entry(w, g, j);
      }
    }
  }

  lemma ValuesAdd(nodes: map<nat, Node>, t: nat, n: Node)
    requires t !in nodes
    ensures nodes[t := n].Values == nodes.Values + {n}
  {
    var nodes' := nodes[t := n];
    forall x | x in nodes.Values ensures x in nodes'.Values {
      var g :| g in nodes && nodes[g] == x;
      assert nodes'[g] == x;
    }
    assert nodes'[t] == n;
  }

  /** A place without a table has none below it. */
  lemma ChildPlace(nodes: map<nat, Node>, n: Node, j: nat)
    requires forall f :: f in nodes && !nodes[f].Root? ==> Parent(nodes[f]) in nodes.Values
    requires n !in nodes.Values && !n.Leaf?
    ensures Child(n, j) !in nodes.Values && Child(n, j) != n
  {
    assert Parent(Child(n, j)) == n;
  }

  /** A present word of the tree above the leaves hangs a table of the next level. */
  lemma HangingTable(w: Words, nodes: map<nat, Node>, root: nat, f: nat, i: nat)
    requires Folded(w, nodes, root, 3) && f in nodes && !nodes[f].Leaf? && User(USER_SLOT).Owns(nodes[f], i)
    requires P in Entry(w, f, i).bits
    ensures var t := Entry(w, f, i).address; t in nodes && nodes[t] == Child(nodes[f], i) && Hangs(w, f, i, t)
  {
    Fold(w, nodes, root);
  }

  lemma RootNode(w: Words, nodes: map<nat, Node>, root: nat)
    requires Folded(w, nodes, root, 3)
    ensures root in nodes && nodes[root] == Root
  {
    Fold(w, nodes, root);
  }

  lemma AttachUserOnly(w: Words, nodes: map<nat, Node>, f: nat, i: nat, t: nat)
    requires UserOnly(w, nodes) && f in nodes && !nodes[f].Leaf? && t !in nodes
    ensures UserOnly(Attached(w, f, i, t, {P, W, U}), nodes[t := Child(nodes[f], i)])
  {}

  /** The tables on the way to page `s`. */
  ghost predicate LeafPath(w: Words, nodes: map<nat, Node>, root: nat, s: Vpn, pdpt: nat, pd: nat, pt: nat) {
    && pdpt in nodes && nodes[pdpt] == Mid(s.i4) && pd in nodes && nodes[pd] == Low(s.i4, s.i3)
    && pt in nodes && nodes[pt] == Leaf(s.i4, s.i3, s.i2)
    && Hangs(w, root, s.i4, pdpt) && Hangs(w, pdpt, s.i3, pd) && Hangs(w, pd, s.i2, pt)
  }

  /** A page is mapped exactly when its leaf word is present. */
  lemma LeafPresent(w: Words, nodes: map<nat, Node>, root: nat, s: Vpn, pdpt: nat, pd: nat, pt: nat)
    requires Folded(w, nodes, root, 3) && LeafPath(w, nodes, root, s, pdpt, pd, pt)
    ensures UserResolve(w, root, s).Some? <==> P in Entry(w, pt, s.i1).bits
  {
    Fold(w, nodes, root);
    assert UserWalk(w, root, 4, s) == UserWalk(w, pdpt, 3, s);
    assert UserWalk(w, pdpt, 3, s) == UserWalk(w, pd, 2, s);
    assert UserWalk(w, pd, 2, s) == UserWalk(w, pt, 1, s);
  }

  lemma PutFolded(w: Words, nodes: map<nat, Node>, root: nat, s: Vpn, e: Pte, pdpt: nat, pd: nat, pt: nat)
    requires Folded(w, nodes, root, 3) && s.i4 == USER_SLOT && P in e.bits && U in e.bits
    requires LeafPath(w, nodes, root, s, pdpt, pd, pt)
    ensures Folded(w[(pt, s.i1) := e], nodes, root, 3)
    ensures UserMapped(w, w[(pt, s.i1) := e], root, s, Mapping(e.address, e.bits))
  {
    Fold(w, nodes, root);
    PutSited(w, nodes, pt, s.i1, e);
    PutLeaf(w, nodes, root, pt, s, e, pdpt, pd);
    Fold(w[(pt, s.i1) := e], nodes, root);
  }

  lemma PutSited(w: Words, nodes: map<nat, Node>, pt: nat, i: nat, e: Pte)
    requires Sited(w, nodes) && pt in nodes && nodes[pt].Leaf?
    ensures Sited(w[(pt, i) := e], nodes)
  {
    var w' := w[(pt, i) := e];
    forall f, j: nat | f in nodes && !nodes[f].Leaf? && Child(nodes[f], j) in nodes.Values
      ensures P in Entry(w', f, j).bits
    {
      assert Entry(w', f, j) == Entry(w, f, j);
    }
  }

  /** Writing one leaf word of a user tree is a one-point update of its translations. */
  lemma PutLeaf(w: Words, nodes: map<nat, Node>, root: nat, pt: nat, s: Vpn, e: Pte, pdpt: nat, pd: nat)
    requires UserTree(w, nodes, root) && s.i4 == USER_SLOT && P in e.bits && U in e.bits
    requires pt in nodes && nodes[pt] == Leaf(s.i4, s.i3, s.i2)
    requires pdpt in nodes && nodes[pdpt] == Mid(s.i4) && pd in nodes && nodes[pd] == Low(s.i4, s.i3)
    requires Hangs(w, root, s.i4, pdpt) && Hangs(w, pdpt, s.i3, pd) && Hangs(w, pd, s.i2, pt)
    ensures UserTree(w[(pt, s.i1) := e], nodes, root)
    ensures UserMapped(w, w[(pt, s.i1) := e], root, s, Mapping(e.address, e.bits))
  {
    var w' := w[(pt, s.i1) := e];
    forall v: Vpn | v != s ensures UserResolve(w', root, v) == UserResolve(w, root, v) {
      UserPutElsewhere(w, nodes, root, USER_SLOT, pt, s.i1, e, v);
    }
    forall j | j != USER_SLOT ensures U !in Entry(w', root, j).bits {
      assert Entry(w', root, j) == Entry(w, root, j);
    }
    assert Entry(w', root, s.i4) == Entry(w, root, s.i4);
    assert Entry(w', pdpt, s.i3) == Entry(w, pdpt, s.i3);
    assert Entry(w', pd, s.i2) == Entry(w, pd, s.i2);
    assert UserWalk(w', root, 4, s) == UserWalk(w', pdpt, 3, s);
    assert UserWalk(w', pdpt, 3, s) == UserWalk(w', pd, 2, s);
    assert UserWalk(w', pd, 2, s) == UserWalk(w', pt, 1, s);
  }

  /** Table `t` hangs under word `i` of `f` as a user table. */
  predicate Hangs(w: Words, f: nat, i: nat, t: nat) {
    var e := Entry(w, f, i);
    P in e.bits && U in e.bits && LARGE !in e.bits && e.address == t
  }

  /** A tree whose own words are untouched keeps its shape and its translations. */
  lemma UserFrame(w: Words, w': Words, nodes: map<nat, Node>, root: nat)
    requires UserTree(w, nodes, root)
    requires forall f, i: nat :: f in nodes ==> Entry(w', f, i) == Entry(w, f, i)
    ensures UserTree(w', nodes, root) && SameUser(w, w', root)
  {
    forall v: Vpn ensures UserResolve(w', root, v) == UserResolve(w, root, v) {
      if v.i4 == USER_SLOT { UserWalkFrame(w, w', nodes, root, root, 4, v); }
    }
  }

  lemma {:induction false} UserWalkFrame(w: Words, w': Words, nodes: map<nat, Node>, root: nat, frame: nat, level: nat,
      v: Vpn)
    requires Tree(w, nodes, root, User(USER_SLOT)) && 1 <= level <= 4
    requires frame in nodes && nodes[frame] == NodeOn(v, level)
    requires v.i4 == USER_SLOT && forall f, i: nat :: f in nodes ==> Entry(w', f, i) == Entry(w, f, i)
    ensures UserWalk(w', frame, level, v) == UserWalk(w, frame, level, v)
    decreases level
  {}

  /** The page numbers of a list of frames. */
  ghost function Pages(frames: seq<nat>): (pages: set<nat>)
    ensures forall f :: f in frames ==> f / 4096 in pages
  {
    if frames == [] then {}
    else
      assert frames == frames[..|frames| - 1] + [frames[|frames| - 1]];
      Pages(frames[..|frames| - 1]) + {frames[|frames| - 1] / 4096}
  }

  lemma {:induction false} PagesConcat(a: seq<nat>, b: seq<nat>)
    ensures Pages(a + b) == Pages(a) + Pages(b)
  {
    if b == [] {
      assert a + b == a;
    } else {
      assert (a + b)[..|a + b| - 1] == a + b[..|b| - 1];
      PagesConcat(a, b[..|b| - 1]);
    }
  }

  /**
  Tables `ts` grew to `ts'` by frames that were free and no longer are, the lowest first, and words outside the
  grown list are untouched.
  */
  ghost predicate Acquired(w: Words, w': Words, ts: seq<nat>, ts': seq<nat>, free: set<nat>, free': set<nat>) {
    AcquiredIn(w, w', ts, ts', free, free', 3)
  }

  /** Acquired, n steps away from its body. */
  ghost predicate AcquiredIn(w: Words, w': Words, ts: seq<nat>, ts': seq<nat>, free: set<nat>, free': set<nat>,
      n: nat) {
    if n > 0 then AcquiredIn(w, w', ts, ts', free, free', n - 1)
    else
      && ts <= ts' && free' == free - Pages(ts'[|ts|..]) && FromBelow(free, free')
      && (forall t :: t in ts'[|ts|..] ==> t % 4096 == 0 && t / 4096 in free)
      && (forall f, i: nat :: f !in ts' ==> Entry(w', f, i) == Entry(w, f, i))
  }

  lemma OpenAcquired(w: Words, w': Words, ts: seq<nat>, ts': seq<nat>, free: set<nat>, free': set<nat>)
    ensures Acquired(w, w', ts, ts', free, free') <==> AcquiredIn(w, w', ts, ts', free, free', 0)
  {
    assert AcquiredIn(w, w', ts, ts', free, free', 1) == AcquiredIn(w, w', ts, ts', free, free', 0);
    assert AcquiredIn(w, w', ts, ts', free, free', 2) == AcquiredIn(w, w', ts, ts', free, free', 1);
  }

  lemma AcquiredBelow(w: Words, w': Words, ts: seq<nat>, ts': seq<nat>, free: set<nat>, free': set<nat>)
    requires Acquired(w, w', ts, ts', free, free')
    ensures FromBelow(free, free')
  {
    OpenAcquired(w, w', ts, ts', free, free');
  }

  lemma AcquiredNone(w: Words, ts: seq<nat>, free: set<nat>)
    ensures Acquired(w, w, ts, ts, free, free)
  {
    OpenAcquired(w, w, ts, ts, free, free);
  }

  lemma AcquiredWord(w: Words, ts: seq<nat>, free: set<nat>, f: nat, i: nat, e: Pte)
    requires f in ts
    ensures Acquired(w, w[(f, i) := e], ts, ts, free, free)
  {
    OpenAcquired(w, w[(f, i) := e], ts, ts, free, free);
  }

  lemma AcquiredTable(w: Words, ts: seq<nat>, free: set<nat>, f: nat, i: nat, t: nat, flags: set<nat>)
    requires f in ts && t % 4096 == 0 && t / 4096 in free && FromBelow(free, free - {t / 4096})
    ensures Acquired(w, Attached(w, f, i, t, flags), ts, ts + [t], free, free - {t / 4096})
  {
    assert (ts + [t])[|ts|..] == [t] && Pages([t]) == {t / 4096} by { assert [t][..0] == []; }
    OpenAcquired(w, Attached(w, f, i, t, flags), ts, ts + [t], free, free - {t / 4096});
  }

  lemma TailSplit(ts: seq<nat>, ts1: seq<nat>, ts2: seq<nat>)
    requires ts <= ts1 <= ts2
    ensures ts <= ts2 && ts2[|ts|..] == ts1[|ts|..] + ts2[|ts1|..]
  {}

  lemma WordsKept(w: Words, w1: Words, w2: Words, ts1: seq<nat>, ts2: seq<nat>)
    requires ts1 <= ts2 && (forall f, i: nat :: f !in ts1 ==> Entry(w1, f, i) == Entry(w, f, i))
    requires forall f, i: nat :: f !in ts2 ==> Entry(w2, f, i) == Entry(w1, f, i)
    ensures forall f, i: nat :: f !in ts2 ==> Entry(w2, f, i) == Entry(w, f, i)
  {
    forall f, i: nat | f !in ts2 ensures Entry(w2, f, i) == Entry(w, f, i) {
      assert f !in ts1;
      assert Entry(w1, f, i) == Entry(w, f, i);
    }
  }

  lemma AcquiredTrans(
    w: Words, w1: Words, w2: Words, ts: seq<nat>, ts1: seq<nat>, ts2: seq<nat>,
    free: set<nat>, free1: set<nat>, free2: set<nat>)
    requires Acquired(w, w1, ts, ts1, free, free1) && Acquired(w1, w2, ts1, ts2, free1, free2)
    ensures Acquired(w, w2, ts, ts2, free, free2)
  {
    OpenAcquired(w, w1, ts, ts1, free, free1);
    OpenAcquired(w1, w2, ts1, ts2, free1, free2);
    TailSplit(ts, ts1, ts2);
    PagesConcat(ts1[|ts|..], ts2[|ts1|..]);
    FromBelowTrans(free, free1, free2);
    WordsKept(w, w1, w2, ts1, ts2);
    OpenAcquired(w, w2, ts, ts2, free, free2);
  }

  /** The first `n` words of `frame` are those of `source`, the rest are zero, all else is as in `w`. */
  ghost predicate Copied(w: Words, w': Words, frame: nat, source: nat, n: nat) {
    forall g, j: nat :: Entry(w', g, j) ==
      if g != frame then Entry(w, g, j) else if j < n then Entry(w, source, j) else ABSENT
  }

  lemma CopiedStep(w: Words, w': Words, frame: nat, source: nat, n: nat)
    requires Copied(w, w', frame, source, n) && frame != source
    ensures Copied(w, w'[(frame, n) := Entry(w', source, n)], frame, source, n + 1)
  {
    var w2 := w'[(frame, n) := Entry(w', source, n)];
    forall g, j: nat ensures Entry(w2, g, j) ==
      if g != frame then Entry(w, g, j) else if j < n + 1 then Entry(w, source, j) else ABSENT
    {
      if (g, j) != (frame, n) { assert Entry(w2, g, j) == Entry(w', g, j); }
    }
  }

  /** A copied kernel root is a user tree with nothing in it. */
  lemma FreshTree(w: Words, w': Words, frame: nat, source: nat)
    requires Copied(w, w', frame, source, 512) && NoUser(w, source) && P !in Entry(w', frame, USER_SLOT).bits
    ensures Folded(w', map[frame := Root], frame, 3) && Places(map[frame := Root], 3) == {Root}
    ensures forall v: Vpn :: UserResolve(w', frame, v) == None
  {
    forall i: nat ensures U !in Entry(w', frame, i).bits {
      assert U !in Entry(w, source, i).bits;
    }
    var none: map<nat, Node> := map[];
    assert none.Values == {};
    ValuesAdd(none, frame, Root);
    FoldPlaces(map[frame := Root]);
    Fold(w', map[frame := Root], frame);
  }

  lemma Split48(va: nat)
    ensures Split(va) == Split(va % VIRTUAL_END)
  {
    var q, r := va / 0x1_0000_0000_0000, va % 0x1_0000_0000_0000;
    assert va == 0x1_0000_0000_0000 * q + r;
    Digit4(q, r);
    Digit3(q, r);
    Digit2(q, r);
    Digit1(q, r);
  }

  lemma Digit4(q: nat, r: nat)
    ensures (0x1_0000_0000_0000 * q + r) / 0x80_0000_0000 % 512 == r / 0x80_0000_0000 % 512
  {
    assert (0x1_0000_0000_0000 * q + r) / 0x80_0000_0000 == 512 * q + r / 0x80_0000_0000;
  }

  lemma Digit3(q: nat, r: nat)
    ensures (0x1_0000_0000_0000 * q + r) / 0x4000_0000 % 512 == r / 0x4000_0000 % 512
  {
    assert (0x1_0000_0000_0000 * q + r) / 0x4000_0000 == 512 * (512 * q) + r / 0x4000_0000;
  }

  lemma Digit2(q: nat, r: nat)
    ensures (0x1_0000_0000_0000 * q + r) / 0x20_0000 % 512 == r / 0x20_0000 % 512
  {
    assert (0x1_0000_0000_0000 * q + r) / 0x20_0000 == 512 * (0x4_0000 * q) + r / 0x20_0000;
  }

  lemma Digit1(q: nat, r: nat)
    ensures (0x1_0000_0000_0000 * q + r) / 0x1000 % 512 == r / 0x1000 % 512
  {
    assert (0x1_0000_0000_0000 * q + r) / 0x1000 == 512 * (0x800_0000 * q) + r / 0x1000;
  }

  lemma PageSplit(va: nat, x: nat)
    requires va % 4096 == 0
    ensures Split(va + x) == Split(va + 4096 * (x / 4096))
  {
    var a, q, r := va / 4096, x / 4096, x % 4096;
    assert va + x == 4096 * (a + q) + r && va + 4096 * q == 4096 * (a + q);
    PageDigits(a + q, r);
    PageDigits(a + q, 0);
  }

  /** The digits of a page do not depend on the offset in it. */
  lemma PageDigits(page: nat, r: nat)
    requires r < 4096
    ensures Split(4096 * page + r) == Vpn(page / 0x800_0000 % 512, page / 0x4_0000 % 512, page / 512 % 512, page % 512)
  {
    PageQuotient(page, r, 0x800_0000);
    PageQuotient(page, r, 0x4_0000);
    PageQuotient(page, r, 512);
    PageQuotient(page, r, 1);
  }

  lemma PageQuotient(page: nat, r: nat, n: nat)
    requires r < 4096 && n in {0x800_0000, 0x4_0000, 512, 1}
    ensures (4096 * page + r) / (4096 * n) == page / n
  {}

  // ---------------------------------------------------------------- accesses by the processor

  /** The addresses the processor takes: bits 48 to 63 repeat bit 47 (Intel SDM volume 1, section 3.3.7.1). */
  predicate Canonical(va: nat) { va < 0x8000_0000_0000 || U64 - 0x8000_0000_0000 <= va < U64 }

  /**
  The processor's walk for an access in user mode (Intel SDM volume 3A, section 4.6.1): every word on the way
  is a user entry, and writable for a write.
  */
  function AccessWalk(w: Words, frame: nat, level: nat, v: Vpn, writing: bool): Option<Mapping>
    requires 1 <= level <= 4
    decreases level
  {
    var e := Entry(w, frame, Index(v, level));
    if P !in e.bits || U !in e.bits || (writing && W !in e.bits) then None
    else if level == 1 then Some(Mapping(e.address, e.bits))
    else if level == 2 && LARGE in e.bits then
      Some(Mapping(e.address / 0x20_0000 * 0x20_0000 + v.i1 * 4096, e.bits - {LARGE}))
    else if level == 3 && LARGE in e.bits then
      Some(Mapping(e.address / 0x4000_0000 * 0x4000_0000 + v.i2 * 0x20_0000 + v.i1 * 4096, e.bits - {LARGE}))
    else AccessWalk(w, e.address, level - 1, v, writing)
  }

  /** What a user access gets to; `None` is a fault. */
  function Access(w: Words, root: nat, va: nat, writing: bool): Option<Mapping> {
    if Canonical(va) then AccessWalk(w, root, 4, Split(va), writing) else None
  }

  /** A mapping, unless a write is asked for that it does not allow. */
  function Allowed(m: Option<Mapping>, writing: bool): Option<Mapping> {
    if m.Some? && writing && W !in m.value.bits then None else m
  }

  lemma AccessLeaf(w: Words, frame: nat, v: Vpn, writing: bool)
    ensures AccessWalk(w, frame, 1, v, writing) == Allowed(UserWalk(w, frame, 1, v), writing)
  {}

  /** One level above: the words of a user tree that are no leaves are writable and not large. */
  lemma AccessLevel(w: Words, nodes: map<nat, Node>, root: nat, frame: nat, level: nat, v: Vpn, writing: bool)
    requires UserTree(w, nodes, root) && 2 <= level <= 4 && frame in nodes && nodes[frame] == NodeOn(v, level)
    ensures
      var e := Entry(w, frame, Index(v, level));
      if P in e.bits && U in e.bits then
        && e.address in nodes && nodes[e.address] == NodeOn(v, level - 1)
        && AccessWalk(w, frame, level, v, writing) == AccessWalk(w, e.address, level - 1, v, writing)
        && UserWalk(w, frame, level, v) == UserWalk(w, e.address, level - 1, v)
      else AccessWalk(w, frame, level, v, writing) == None == UserWalk(w, frame, level, v)
  {
    assert User(USER_SLOT).Owns(nodes[frame], Index(v, level)) || U !in Entry(w, frame, Index(v, level)).bits;
  }

  lemma {:induction false} AccessAgrees(w: Words, nodes: map<nat, Node>, root: nat, frame: nat, level: nat, v: Vpn,
      writing: bool)
    requires UserTree(w, nodes, root) && 1 <= level <= 4 && frame in nodes && nodes[frame] == NodeOn(v, level)
    ensures AccessWalk(w, frame, level, v, writing) == Allowed(UserWalk(w, frame, level, v), writing)
    decreases level
  {
    if level == 1 {
      AccessLeaf(w, frame, v, writing);
    } else {
      AccessLevel(w, nodes, root, frame, level, v, writing);
      var e := Entry(w, frame, Index(v, level));
      if P in e.bits && U in e.bits { AccessAgrees(w, nodes, root, e.address, level - 1, v, writing); }
    }
  }

  /** A translated address lies in the user slot of its 2^48 bytes, so it is canonical exactly in the first. */
  lemma SlotCanonical(w: Words, nodes: map<nat, Node>, root: nat, va: nat)
    requires UserTree(w, nodes, root) && UserResolve(w, root, Split(va)).Some? && va < U64
    ensures Canonical(va) <==> va < 0x8000_0000_0000
  {
    assert Split(va).i4 == USER_SLOT;
    TopDigit(va);
  }

  lemma AliasDigits(va: nat, k: nat)
    ensures (va + k * 0x1_0000_0000_0000) % 0x1_0000_0000_0000 == va % 0x1_0000_0000_0000
  {}

  lemma TopDigit(va: nat)
    requires va < U64 && va / 0x80_0000_0000 % 512 == 1
    ensures va < U64 - 0x8000_0000_0000
  {}

  /** A free frame joins the owned tables. */
  lemma OneMore(ts: seq<nat>, t: nat, managed: set<nat>, free: set<nat>)
    requires Unique(ts) && InUse(Elements(ts), managed, free) && t % 4096 == 0 && t / 4096 in free && free <= managed
    ensures t !in ts && Unique(ts + [t]) && InUse(Elements(ts + [t]), managed, free - {t / 4096})
  {
    InUseJoin(Elements(ts), managed, free, t);
    assert t !in ts;
    UniqueAppend(ts, t);
    assert Elements(ts + [t]) == Elements(ts) + {t};
  }

  /** Tables and the words that hang them stay. (Folded: n steps away from its body.) */
  ghost predicate Extends(w: Words, w': Words, nodes: map<nat, Node>, nodes': map<nat, Node>, n: nat) {
    if n > 0 then Extends(w, w', nodes, nodes', n - 1)
    else
      && (forall g :: g in nodes ==> g in nodes' && nodes'[g] == nodes[g])
      && forall g, j, u: nat :: g in nodes && Hangs(w, g, j, u) ==> Hangs(w', g, j, u)
  }

  lemma FoldExtends(w: Words, w': Words, nodes: map<nat, Node>, nodes': map<nat, Node>)
    ensures Extends(w, w', nodes, nodes', 3) <==> Extends(w, w', nodes, nodes', 0)
  {
    assert Extends(w, w', nodes, nodes', 1) == Extends(w, w', nodes, nodes', 0);
    assert Extends(w, w', nodes, nodes', 2) == Extends(w, w', nodes, nodes', 1);
  }

  lemma ExtendsSame(w: Words, nodes: map<nat, Node>)
    ensures Extends(w, w, nodes, nodes, 3)
  {
    FoldExtends(w, w, nodes, nodes);
  }

  lemma ExtendsAttach(w: Words, nodes: map<nat, Node>, f: nat, i: nat, t: nat, n: Node)
    requires t !in nodes && P !in Entry(w, f, i).bits
    ensures Extends(w, Attached(w, f, i, t, {P, W, U}), nodes, nodes[t := n], 3)
    ensures Hangs(Attached(w, f, i, t, {P, W, U}), f, i, t)
  {
    var w' := Attached(w, f, i, t, {P, W, U});
    forall g, j, u: nat | g in nodes && Hangs(w, g, j, u) ensures Hangs(w', g, j, u) {
      assert Entry(w', g, j) == Entry(w, g, j);
    }
    FoldExtends(w, w', nodes, nodes[t := n]);
  }

  /** One hanging table stays where it is. */
  lemma ExtendsHang(w: Words, w': Words, nodes: map<nat, Node>, nodes': map<nat, Node>, f: nat, i: nat, t: nat)
    requires Extends(w, w', nodes, nodes', 3) && f in nodes && t in nodes && Hangs(w, f, i, t)
    ensures f in nodes' && nodes'[f] == nodes[f] && t in nodes' && nodes'[t] == nodes[t] && Hangs(w', f, i, t)
  {
    FoldExtends(w, w', nodes, nodes');
  }

  /** A table is had if it is there, or if the limit and the free pages allow a new one. */
  ghost predicate Spent(has: bool, tables: nat, free: nat, got: bool, tables': nat, free': nat) {
    && (got <==> has || (tables < MAX_TABLES && free > 0))
    && (if got && !has then tables' == tables + 1 && free' == free - 1 else tables' == tables && free' == free)
  }

  /** The places of the tables on the way to a page. */
  function Path(s: Vpn): set<Node> { {Mid(s.i4), Low(s.i4, s.i3), Leaf(s.i4, s.i3, s.i2)} }

  /** How many of them have no table yet. */
  ghost function Lacking(sites: set<Node>, s: Vpn): nat {
    (if Mid(s.i4) in sites then 0 else 1) + (if Low(s.i4, s.i3) in sites then 0 else 1)
    + (if Leaf(s.i4, s.i3, s.i2) in sites then 0 else 1)
  }

  /** The limit and the free pages allow the tables that are lacking. */
  ghost predicate Affords(sites: set<Node>, tables: nat, free: nat, s: Vpn) {
    tables + Lacking(sites, s) <= MAX_TABLES && free >= Lacking(sites, s)
  }

  lemma WayBuilt(a: set<Node>, b: set<Node>, c: set<Node>, s: Vpn)
    requires b == a + {Mid(s.i4)} + {Low(s.i4, s.i3)} && c == b + {Leaf(s.i4, s.i3, s.i2)}
    ensures c == a + Path(s)
  {}

  /** Spent, for the two tables down to the page directory. */
  ghost predicate SpentTwice(sites: set<Node>, tables: nat, free: nat, got: bool, tables': nat, free': nat, s: Vpn) {
    var m := (if Mid(s.i4) in sites then 0 else 1) + (if Low(s.i4, s.i3) in sites then 0 else 1);
    && (got <==> tables + m <= MAX_TABLES && free >= m)
    && (got ==> tables' == tables + m && free' == free - m)
  }

  /** The upper tables on the way to page `s`. */
  ghost predicate DirectoryPath(w: Words, nodes: map<nat, Node>, root: nat, s: Vpn, pdpt: nat, pd: nat) {
    && root in nodes && pdpt in nodes && nodes[pdpt] == Mid(s.i4) && pd in nodes && nodes[pd] == Low(s.i4, s.i3)
    && Hangs(w, root, s.i4, pdpt) && Hangs(w, pdpt, s.i3, pd)
  }

  lemma ExtendsPath(
    w: Words, w': Words, nodes: map<nat, Node>, nodes': map<nat, Node>, root: nat, s: Vpn, pdpt: nat, pd: nat)
    requires Extends(w, w', nodes, nodes', 3) && DirectoryPath(w, nodes, root, s, pdpt, pd)
    ensures DirectoryPath(w', nodes', root, s, pdpt, pd)
  {
    ExtendsHang(w, w', nodes, nodes', root, s.i4, pdpt);
    ExtendsHang(w, w', nodes, nodes', pdpt, s.i3, pd);
  }

  lemma SlotOf(va: nat)
    requires USER_BASE <= va < USER_BASE + 0x80_0000_0000
    ensures Split(va).i4 == USER_SLOT
  {}

  /** A place has a table exactly when the word that leads to it is present. */
  lemma SiteWord(w: Words, nodes: map<nat, Node>, root: nat, f: nat, i: nat)
    requires Folded(w, nodes, root, 3) && f in nodes && !nodes[f].Leaf? && User(USER_SLOT).Owns(nodes[f], i)
    ensures Child(nodes[f], i) in Places(nodes, 3) <==> P in Entry(w, f, i).bits
  {
    FoldPlaces(nodes);
    Fold(w, nodes, root);
  }

  /** The tables above a table exist. */
  lemma SitesAbove(w: Words, nodes: map<nat, Node>, root: nat, s: Vpn)
    requires Folded(w, nodes, root, 3)
    ensures Leaf(s.i4, s.i3, s.i2) in Places(nodes, 3) ==> Low(s.i4, s.i3) in Places(nodes, 3)
    ensures Low(s.i4, s.i3) in Places(nodes, 3) ==> Mid(s.i4) in Places(nodes, 3)
  {
    FoldPlaces(nodes);
    Fold(w, nodes, root);
    if Leaf(s.i4, s.i3, s.i2) in nodes.Values {
      var f :| f in nodes && nodes[f] == Leaf(s.i4, s.i3, s.i2);
      assert Parent(nodes[f]) == Low(s.i4, s.i3);
    }
    if Low(s.i4, s.i3) in nodes.Values {
      var f :| f in nodes && nodes[f] == Low(s.i4, s.i3);
      assert Parent(nodes[f]) == Mid(s.i4);
    }
  }

  class AddressSpace {
    const mem: Memory
    var root: nat
    var userBase: nat
    var tablePages: seq<nat>
    var nx: bool
    ghost var nodes: map<nat, Node>

    /** Either unused, or a user tree made of at most sixteen distinct held frames. */
    ghost predicate Valid()
      reads this, mem, mem.pmm, mem.pmm.usable, mem.pmm.used
    {
      ValidIn(3)
    }

    /** Valid, n steps away from its body. */
    ghost predicate ValidIn(n: nat)
      reads this, mem, mem.pmm, mem.pmm.usable, mem.pmm.used
      decreases n, this
    {
      if n > 0 then ValidIn(n - 1)
      else
        && Holding()
        && if root == 0 then tablePages == []
           else
             && userBase == USER_BASE && nodes.Keys == Elements(tablePages) && |Places(nodes, 3)| == |tablePages|
             && Folded(mem.words, nodes, root, 3)
    }

    lemma OpenSpace()
      ensures Valid() <==> ValidIn(0)
    {
      assert ValidIn(1) == ValidIn(0);
      assert ValidIn(2) == ValidIn(1);
    }

    /** The places that have a table. */
    ghost function Sites(): set<Node>
      reads this`nodes
    {
      Places(nodes, 3)
    }

    constructor (mem: Memory)
      requires mem.Valid()
      ensures Valid() && this.mem == mem && root == 0 && tablePages == []
    {
      this.mem := mem;
      root, userBase, tablePages, nx, nodes := 0, 0, [], false, map[];
      new;
      OpenSpace();
    }

    ghost function Map(va: nat): Option<Mapping>
      reads this, mem
    {
      UserResolve(mem.words, root, Split(va))
    }

    /** What the table list has to keep: at most sixteen distinct held frames. */
    ghost predicate Holding()
      reads this`tablePages, mem, mem.pmm, mem.pmm.usable, mem.pmm.used
    {
      && mem.Valid() && |tablePages| <= MAX_TABLES && Unique(tablePages)
      && InUse(Elements(tablePages), mem.pmm.managed, mem.pmm.Free())
    }

    /** A zeroed frame added to the owned tables, or 0 when the table limit or memory is exhausted. */
    method AllocateUserTable() returns (t: nat)
      requires Holding()
      modifies this`tablePages, mem, mem.pmm, mem.pmm.usable, mem.pmm.used
      ensures Holding() && mem.pmm.managed == old(mem.pmm.managed) && mem.bytes == old(mem.bytes)
      ensures t == 0 <==> old(|tablePages|) == MAX_TABLES || old(mem.pmm.Free()) == {}
      ensures t == 0 ==>
        tablePages == old(tablePages) && mem.words == old(mem.words) && mem.pmm.Free() == old(mem.pmm.Free())
      ensures t != 0 ==>
        tablePages == old(tablePages) + [t] && t !in old(tablePages) && mem.words == Zeroed(old(mem.words), t)
      ensures t != 0 ==>
        t % 4096 == 0 && t / 4096 in old(mem.pmm.Free()) && mem.pmm.Free() == old(mem.pmm.Free()) - {t / 4096}
      ensures FromBelow(old(mem.pmm.Free()), mem.pmm.Free())
    {
      if |tablePages| >= MAX_TABLES { return 0; }
      t := mem.AllocateTable();
      if t == 0 { return; }
      OneMore(tablePages, t, mem.pmm.managed, old(mem.pmm.Free()));
      tablePages := tablePages + [t];
    }

    /** What an operation on this space does to the rest of the machine. */
    twostate predicate Contained()
      reads this, mem, mem.pmm, mem.pmm.usable, mem.pmm.used
    {
      && mem.bytes == old(mem.bytes) && mem.pmm.managed == old(mem.pmm.managed)
      && Acquired(old(mem.words), mem.words, old(tablePages), tablePages, old(mem.pmm.Free()), mem.pmm.Free())
    }

    ghost function FreeCount(): nat
      reads mem.pmm
    {
      |mem.pmm.Free()|
    }

    /** The table under word `i` of owned table `f`, allocated and linked if the word is absent. */
    method Descend(f: nat, i: nat) returns (t: nat)
      requires Valid() && root != 0 && f in nodes && !nodes[f].Leaf? && User(USER_SLOT).Owns(nodes[f], i)
      modifies this`nodes, this`tablePages, mem, mem.pmm, mem.pmm.usable, mem.pmm.used
      ensures Valid() && Contained() && SameUser(old(mem.words), mem.words, root)
      ensures Extends(old(mem.words), mem.words, old(nodes), nodes, 3) && f in nodes && nodes[f] == old(nodes)[f]
      ensures Spent(Child(old(nodes)[f], i) in old(Sites()), old(|tablePages|), old(FreeCount()), t != 0, |tablePages|,
        FreeCount())
      ensures t != 0 ==> Sites() == old(Sites()) + {Child(old(nodes)[f], i)}
      ensures t != 0 ==> t in nodes && nodes[t] == Child(old(nodes)[f], i) && Hangs(mem.words, f, i, t)
    {
      OpenSpace();
      SiteWord(mem.words, nodes, root, f, i);
      if P !in Entry(mem.words, f, i).bits {
        t := Grow(f, i);
      } else {
        AcquiredNone(mem.words, tablePages, mem.pmm.Free());
        ExtendsSame(mem.words, nodes);
        HangingTable(mem.words, nodes, root, f, i);
        assert Sites() == Sites() + {Child(nodes[f], i)};
        t := Entry(mem.words, f, i).address;
      }
    }

    method Grow(f: nat, i: nat) returns (t: nat)
      requires Valid() && root != 0 && f in nodes && !nodes[f].Leaf? && User(USER_SLOT).Owns(nodes[f], i)
      requires P !in Entry(mem.words, f, i).bits
      modifies this`nodes, this`tablePages, mem, mem.pmm, mem.pmm.usable, mem.pmm.used
      ensures Valid() && Contained() && SameUser(old(mem.words), mem.words, root)
      ensures Extends(old(mem.words), mem.words, old(nodes), nodes, 3) && f in nodes && nodes[f] == old(nodes)[f]
      ensures Spent(false, old(|tablePages|), old(FreeCount()), t != 0, |tablePages|, FreeCount())
      ensures t != 0 ==> t in nodes && nodes[t] == Child(old(nodes)[f], i) && Hangs(mem.words, f, i, t)
      ensures t != 0 ==> Sites() == old(Sites()) + {Child(old(nodes)[f], i)}
    {
      OpenSpace();
      t := AllocateUserTable();
      if t == 0 {
        AcquiredNone(mem.words, tablePages, mem.pmm.Free());
        ExtendsSame(mem.words, nodes);
        OpenSpace();
        return;
      }
      assert f in Elements(old(tablePages));
      AcquiredTable(old(mem.words), old(tablePages), old(mem.pmm.Free()), f, i, t, {P, W, U});
      AttachFolded(old(mem.words), nodes, root, f, i, t);
      ExtendsAttach(old(mem.words), nodes, f, i, t, Child(nodes[f], i));
      nodes := nodes[t := Child(nodes[f], i)];
      mem.words := mem.words[(f, i) := Pte(t, {P, W, U})];
      assert Elements(tablePages) == Elements(old(tablePages)) + {t};
      OpenSpace();
    }

    /** The page directory of `s`, with the tables above it allocated as needed. */
    method DirectoryTable(s: Vpn) returns (pdpt: nat, pd: nat)
      requires Valid() && root != 0 && s.i4 == USER_SLOT
      modifies this`nodes, this`tablePages, mem, mem.pmm, mem.pmm.usable, mem.pmm.used
      ensures Valid() && Contained() && SameUser(old(mem.words), mem.words, root)
      ensures SpentTwice(old(Sites()), old(|tablePages|), old(FreeCount()), pd != 0, |tablePages|, FreeCount(), s)
      ensures pd != 0 ==> Sites() == old(Sites()) + {Mid(s.i4)} + {Low(s.i4, s.i3)}
      ensures pd != 0 ==> DirectoryPath(mem.words, nodes, root, s, pdpt, pd)
    {
      assert Folded(mem.words, nodes, root, 3) by { OpenSpace(); }
      pdpt, pd := 0, 0;
      ghost var w0, ts0, free0 := mem.words, tablePages, mem.pmm.Free();
      RootNode(mem.words, nodes, root);
      SitesAbove(mem.words, nodes, root, s);
      assert |tablePages| <= MAX_TABLES by { OpenSpace(); }
      pdpt := Descend(root, s.i4);
      if pdpt == 0 { return; }
      ghost var w1, n1 := mem.words, nodes;
      pd := DescendOn(pdpt, s.i3, w0, ts0, free0);
      if pd == 0 { return; }
      ExtendsHang(w1, mem.words, n1, nodes, root, s.i4, pdpt);
    }

    /** The leaf table of page `s`, with the tables above it allocated as needed. */
    method LeafTable(s: Vpn) returns (pdpt: nat, pd: nat, pt: nat)
      requires Valid() && root != 0 && s.i4 == USER_SLOT
      modifies this`nodes, this`tablePages, mem, mem.pmm, mem.pmm.usable, mem.pmm.used
      ensures Valid() && Contained() && SameUser(old(mem.words), mem.words, root)
      ensures pt != 0 <==> Affords(old(Sites()), old(|tablePages|), old(FreeCount()), s)
      ensures pt != 0 ==> Sites() == old(Sites()) + Path(s)
      ensures pt != 0 ==> FreeCount() == old(FreeCount()) - Lacking(old(Sites()), s)
      ensures pt != 0 ==> LeafPath(mem.words, nodes, root, s, pdpt, pd, pt)
    {
      assert Folded(mem.words, nodes, root, 3) by { OpenSpace(); }
      pt := 0;
      SitesAbove(mem.words, nodes, root, s);
      assert |tablePages| <= MAX_TABLES by { OpenSpace(); }
      pdpt, pd := DirectoryTable(s);
      if pd == 0 { return; }
      ghost var w, n, sites := mem.words, nodes, Sites();
      pt := DescendOn(pd, s.i2, old(mem.words), old(tablePages), old(mem.pmm.Free()));
      if pt == 0 { return; }
      WayBuilt(old(Sites()), sites, Sites(), s);
      ExtendsPath(w, mem.words, n, nodes, root, s, pdpt, pd);
    }

    /** Descend, as one more step of an operation that began with words `w`, tables `ts` and free pages `free`. */
    method DescendOn(f: nat, i: nat, ghost w: Words, ghost ts: seq<nat>, ghost free: set<nat>) returns (t: nat)
      requires Valid() && root != 0 && f in nodes && !nodes[f].Leaf? && !nodes[f].Root?
      requires SameUser(w, mem.words, root) && Acquired(w, mem.words, ts, tablePages, free, mem.pmm.Free())
      modifies this`nodes, this`tablePages, mem, mem.pmm, mem.pmm.usable, mem.pmm.used
      ensures Valid() && mem.bytes == old(mem.bytes) && mem.pmm.managed == old(mem.pmm.managed)
      ensures SameUser(w, mem.words, root) && Acquired(w, mem.words, ts, tablePages, free, mem.pmm.Free())
      ensures Extends(old(mem.words), mem.words, old(nodes), nodes, 3) && f in nodes && nodes[f] == old(nodes)[f]
      ensures Spent(Child(old(nodes)[f], i) in old(Sites()), old(|tablePages|), old(FreeCount()), t != 0, |tablePages|,
        FreeCount())
      ensures t != 0 ==> Sites() == old(Sites()) + {Child(old(nodes)[f], i)}
      ensures t != 0 ==> t in nodes && nodes[t] == Child(old(nodes)[f], i) && Hangs(mem.words, f, i, t)
    {
      t := Descend(f, i);
      SameUserTrans(w, old(mem.words), mem.words, root);
      AcquiredTrans(w, old(mem.words), mem.words, ts, old(tablePages), tablePages, free, old(mem.pmm.Free()),
        mem.pmm.Free());
    }

    /** What paging_user_map_page refuses before it looks at any table. */
    predicate Mappable(va: nat, physical: nat)
      reads this`root, this`userBase
    {
      root != 0 && va % 4096 == 0 && physical % 4096 == 0 && userBase <= va < userBase + 0x80_0000_0000
    }

    /**
    A one-point update: on success page `va` maps to the frame with exactly the requested bits and
    every other translation is as before; on any failure no translation changes. Nothing outside
    the owned tables is written. It succeeds exactly for a good address that is not mapped yet, when the table
    limit and the free pages allow the tables that are lacking on the way.
    */
    method MapPage(va: nat, physical: nat, writable: bool, executable: bool) returns (ok: bool)
      requires Valid()
      modifies this`nodes, this`tablePages, mem, mem.pmm, mem.pmm.usable, mem.pmm.used
      ensures Valid() && Contained()
      ensures ok ==> var e := MakeEntry(physical, Attributes(nx, writable, executable));
        UserMapped(old(mem.words), mem.words, root, Split(va), Mapping(e.address, e.bits))
      ensures !ok ==> SameUser(old(mem.words), mem.words, root)
      ensures ok <==>
        && root != 0 && va % 4096 == 0 && physical % 4096 == 0 && USER_BASE <= va < 2 * USER_BASE
        && old(Map(va)) == None && Affords(old(Sites()), old(|tablePages|), old(FreeCount()), Split(va))
      ensures ok ==> Sites() == old(Sites()) + Path(Split(va))
      ensures ok ==> FreeCount() == old(FreeCount()) - Lacking(old(Sites()), Split(va))
    {
      AcquiredNone(mem.words, tablePages, mem.pmm.Free());
      assert root != 0 ==> userBase == USER_BASE by { OpenSpace(); }
      if !Mappable(va, physical) { return false; }
      SlotOf(va);
      var s := Split(va);
      var pdpt, pd, pt := LeafTable(s);
      if pt == 0 { return false; }
      assert Folded(mem.words, nodes, root, 3) by { OpenSpace(); }
      LeafPresent(mem.words, nodes, root, s, pdpt, pd, pt);
      if P in Entry(mem.words, pt, s.i1).bits { return false; }
      var e := MakeEntry(physical, Attributes(nx, writable, executable));
      WriteLeaf(s, e, pdpt, pd, pt, old(mem.words), old(tablePages), old(mem.pmm.Free()));
      return true;
    }

    /** Writes the leaf word of `s`, as the last step of a mapping that began with `w`, `ts` and `free`. */
    method WriteLeaf(
      s: Vpn, e: Pte, ghost pdpt: nat, ghost pd: nat, pt: nat, ghost w: Words, ghost ts: seq<nat>, ghost free: set<nat>)
      requires Valid() && root != 0 && s.i4 == USER_SLOT && P in e.bits && U in e.bits
      requires LeafPath(mem.words, nodes, root, s, pdpt, pd, pt) && SameUser(w, mem.words, root)
      requires Acquired(w, mem.words, ts, tablePages, free, mem.pmm.Free())
      modifies mem`words
      ensures Valid() && UserMapped(w, mem.words, root, s, Mapping(e.address, e.bits))
      ensures Acquired(w, mem.words, ts, tablePages, free, mem.pmm.Free())
    {
      OpenSpace();
      ghost var free' := mem.pmm.Free();
      PutFolded(mem.words, nodes, root, s, e, pdpt, pd, pt);
      UserMappedTrans(w, mem.words, mem.words[(pt, s.i1) := e], root, s, Mapping(e.address, e.bits));
      assert pt in Elements(tablePages);
      AcquiredWord(mem.words, tablePages, free', pt, s.i1, e);
      AcquiredTrans(w, mem.words, mem.words[(pt, s.i1) := e], ts, tablePages, tablePages, free, free', free');
      mem.words := mem.words[(pt, s.i1) := e];
      OpenSpace();
    }

    /** The walk of paging_user_translate; it looks at the low 48 bits of the address only. */
    method Translate(va: nat) returns (r: Option<Mapping>)
      ensures root == 0 ==> r == None
      ensures root != 0 ==> r.Some? == Map(va).Some?
      ensures r.Some? ==> r.value.address == Map(va).value.address + va % 4096 && r.value.bits == Map(va).value.bits
      ensures root != 0 && va >= VIRTUAL_END ==> Map(va) == Map(va % VIRTUAL_END)
    {
      Split48(va);
      if root == 0 { return None; }
      var s := Split(va);
      var e4 := Entry(mem.words, root, s.i4);
      if P !in e4.bits || U !in e4.bits { return None; }
      var e3 := Entry(mem.words, e4.address, s.i3);
      assert UserWalk(mem.words, root, 4, s) == UserWalk(mem.words, e4.address, 3, s);
      if P !in e3.bits || U !in e3.bits || LARGE in e3.bits { return None; }
      var e2 := Entry(mem.words, e3.address, s.i2);
      assert UserWalk(mem.words, e4.address, 3, s) == UserWalk(mem.words, e3.address, 2, s);
      if P !in e2.bits || U !in e2.bits || LARGE in e2.bits { return None; }
      var e1 := Entry(mem.words, e2.address, s.i1);
      assert UserWalk(mem.words, e3.address, 2, s) == UserWalk(mem.words, e2.address, 1, s);
      if P !in e1.bits || U !in e1.bits { return None; }
      return Some(Mapping(e1.address + va % 4096, e1.bits));
    }

    /** What the range checks ask of one address. */
    ghost predicate Passes(va: nat, writing: bool)
      reads this, mem
    {
      root != 0 && Map(va).Some? && (writing ==> W in Map(va).value.bits)
    }

    /** What the range checks ask of a range. */
    ghost predicate Cleared(address: nat, length: nat, writing: bool)
      reads this, mem
    {
      && length > 0 && address + length <= U64
      && forall va: nat :: address <= va < address + length ==> Passes(va, writing)
    }

    /** The range checks of the system calls: one translation for each page is enough for every byte. */
    method RangeAccessible(address: nat, length: nat, writing: bool) returns (r: bool)
      requires address < U64 && length < U64
      ensures r <==> Cleared(address, length, writing)
    {
      if length == 0 || address > U64 - 1 - (length - 1) { return false; }
      var first, last := address / 4096, (address + length - 1) / 4096;
      var page := first;
      while true
        invariant first <= page <= last
        invariant forall va: nat :: address <= va < address + length && va / 4096 < page ==> Passes(va, writing)
        decreases last - page
      {
        var m := Translate(4096 * page);
        SamePage(4096 * page);
        ghost var inside := if page == first then address else 4096 * page;
        assert address <= inside < address + length && inside / 4096 == page;
        SamePage(inside);
        if m.None? || (writing && W !in m.value.bits) {
          assert !Passes(inside, writing);
          return false;
        }
        forall va: nat | va / 4096 == page ensures Passes(va, writing) { SamePage(va); }
        if page == last { return true; }
        page := page + 1;
      }
    }

    /** A user program can access `va` through this space; a fault otherwise. */
    ghost predicate Accessible(va: nat, writing: bool)
      reads this, mem
    {
      Access(mem.words, root, va, writing).Some?
    }

    /** For one address: what passes is accessible exactly below 2^47, and then where the check says. */
    lemma PassesExact(va: nat, writing: bool)
      requires Valid() && Passes(va, writing) && va < U64
      ensures Accessible(va, writing) <==> va < 0x8000_0000_0000
      ensures Accessible(va, writing) ==> Access(mem.words, root, va, writing) == Map(va)
    {
      OpenSpace();
      Fold(mem.words, nodes, root);
      SlotCanonical(mem.words, nodes, root, va);
      AccessAgrees(mem.words, nodes, root, root, 4, Split(va), writing);
    }

    /** What is accessible passes: the checks refuse no range that the program could access itself. */
    lemma AccessiblePasses(va: nat, writing: bool)
      requires Valid() && root != 0 && Accessible(va, writing)
      ensures Passes(va, writing)
    {
      OpenSpace();
      Fold(mem.words, nodes, root);
      AccessAgrees(mem.words, nodes, root, root, 4, Split(va), writing);
    }

    /**
    A range that the checks pass is accessible to the program exactly if it ends below 2^47, where the
    canonical addresses end. The checks look at the low 48 bits only.
    */
    lemma ClearedExact(address: nat, length: nat, writing: bool)
      requires Valid() && Cleared(address, length, writing)
      ensures
        (forall va: nat :: address <= va < address + length ==> Accessible(va, writing)) <==>
        address + length <= 0x8000_0000_0000
    {
      forall va: nat | address <= va < address + length
        ensures Accessible(va, writing) <==> va < 0x8000_0000_0000
      {
        assert Passes(va, writing);
        PassesExact(va, writing);
      }
      var last := address + length - 1;
      assert Accessible(last, writing) <==> last < 0x8000_0000_0000;
    }

    /** A range that passes is accessible as a whole or not at all. */
    lemma ClearedWhole(address: nat, length: nat, writing: bool)
      requires Valid() && Cleared(address, length, writing) && address < 0x8000_0000_0000
      ensures forall va: nat :: address <= va < address + length ==> Accessible(va, writing)
    {
      forall va: nat | address <= va < address + length ensures Accessible(va, writing) {
        assert Passes(address, writing) && Passes(va, writing);
        PassesExact(va, writing);
        if va >= 0x8000_0000_0000 {
          assert Passes(0x8000_0000_0000, writing);
          PastUser();
        }
      }
    }

    /** The addresses from 2^47 on, up to the alias of the user range, are not mapped. */
    lemma PastUser()
      requires Valid() && root != 0
      ensures Map(0x8000_0000_0000) == None
    {
      OpenSpace();
      Fold(mem.words, nodes, root);
      assert Split(0x8000_0000_0000).i4 == 256;
    }

    /** Every accessible range has 2^16 - 1 copies that the checks pass and no byte of which is accessible. */
    lemma AliasCleared(address: nat, length: nat, writing: bool, k: nat)
      requires Valid() && Cleared(address, length, writing) && address + length <= 0x8000_0000_0000 && 0 < k < 0x1_0000
      ensures
        var alias := address + k * VIRTUAL_END;
        Cleared(alias, length, writing) && forall va: nat :: alias <= va < alias + length ==> !Accessible(va, writing)
    {
      var alias := address + k * VIRTUAL_END;
      forall va: nat | alias <= va < alias + length ensures Passes(va, writing) && !Accessible(va, writing) {
        var low: nat := va - k * VIRTUAL_END;
        assert Passes(low, writing);
        Split48(va);
        Split48(low);
        AliasDigits(low, k);
        PassesExact(va, writing);
      }
    }

    /** All bytes of a page are translated alike. */
    lemma SamePage(va: nat)
      ensures Map(va) == Map(4096 * (va / 4096))
    {
      PageSplit(0, va);
    }

    /**
    A fresh root that shares every kernel entry outside the user slot and maps no user page. When
    memory is exhausted or the kernel itself uses the slot, nothing is kept.
    */
    method Create(kernel: KernelSpace) returns (ok: bool)
      requires Valid() && root == 0 && kernel.mem == mem && kernel.Valid()
      modifies this, mem, mem.pmm, mem.pmm.usable, mem.pmm.used
      ensures Valid() && mem.bytes == old(mem.bytes) && mem.pmm.managed == old(mem.pmm.managed)
      ensures ok <==>
        kernel.root != 0 && old(mem.pmm.Free()) != {} && P !in Entry(old(mem.words), kernel.root, USER_SLOT).bits
      ensures !ok ==> root == 0 && tablePages == [] && mem.pmm.Free() == old(mem.pmm.Free())
      ensures ok ==> Sites() == {Root} && FromBelow(old(mem.pmm.Free()), mem.pmm.Free())
      ensures ok ==>
        root != 0 && tablePages == [root] && nx == kernel.nx &&
        (forall v: Vpn :: UserResolve(mem.words, root, v) == None)
      ensures ok ==>
        root % 4096 == 0 && root / 4096 in old(mem.pmm.Free()) && mem.pmm.Free() == old(mem.pmm.Free()) - {root / 4096}
      ensures ok ==> Copied(old(mem.words), mem.words, root, kernel.root, 512)
      ensures forall f: nat, i: nat :: f % 4096 != 0 || f / 4096 !in old(mem.pmm.Free()) ==>
        Entry(mem.words, f, i) == Entry(old(mem.words), f, i)
    {
      if kernel.root == 0 { OpenSpace(); return false; }
      assert tablePages == [] && Holding() by { OpenSpace(); }
      userBase, nx := 0, kernel.nx;
      var frame := NewRoot(kernel.root);
      if frame == 0 { OpenSpace(); return false; }
      if P in Entry(mem.words, frame, USER_SLOT).bits {
        Destroy();
        assert Pages([frame]) == {frame / 4096} by { assert [frame][..0] == []; }
        OpenSpace();
        return false;
      }
      Adopt(frame, old(mem.words), kernel.root);
      return true;
    }

    /** The copied root becomes the root of the space. */
    method Adopt(frame: nat, ghost w: Words, ghost source: nat)
      requires Holding() && tablePages == [frame] && frame != 0
      requires Copied(w, mem.words, frame, source, 512) && NoUser(w, source)
      requires P !in Entry(mem.words, frame, USER_SLOT).bits
      modifies this`root, this`userBase, this`nodes
      ensures Valid() && root == frame && Sites() == {Root}
      ensures forall v: Vpn :: UserResolve(mem.words, root, v) == None
    {
      nodes := map[frame := Root];
      root, userBase := frame, USER_BASE;
      FreshTree(w, mem.words, frame, source);
      assert nodes.Keys == {frame} == Elements(tablePages);
      OpenSpace();
    }

    /** The first table of a space: a copy of a kernel root. */
    method NewRoot(source: nat) returns (frame: nat)
      requires Holding() && tablePages == [] && source % 4096 == 0 && source / 4096 !in mem.pmm.Free()
      modifies this`tablePages, mem, mem.pmm, mem.pmm.usable, mem.pmm.used
      ensures Holding() && FromBelow(old(mem.pmm.Free()), mem.pmm.Free())
      ensures mem.pmm.managed == old(mem.pmm.managed) && mem.bytes == old(mem.bytes)
      ensures frame == 0 <==> old(mem.pmm.Free()) == {}
      ensures frame == 0 ==> tablePages == [] && mem.words == old(mem.words) && mem.pmm.Free() == old(mem.pmm.Free())
      ensures frame != 0 ==> tablePages == [frame] && Copied(old(mem.words), mem.words, frame, source, 512)
      ensures frame != 0 ==>
        frame % 4096 == 0 && frame / 4096 in old(mem.pmm.Free()) &&
        mem.pmm.Free() == old(mem.pmm.Free()) - {frame / 4096}
    {
      frame := AllocateUserTable();
      if frame == 0 { return; }
      assert tablePages == [frame];
      CopyRoot(frame, source, old(mem.words));
    }

    method CopyRoot(frame: nat, source: nat, ghost w: Words)
      requires mem.words == Zeroed(w, frame) && frame != source
      modifies mem`words
      ensures Copied(w, mem.words, frame, source, 512)
    {
      for i := 0 to 512
        invariant Copied(w, mem.words, frame, source, i)
      {
        CopiedStep(w, mem.words, frame, source, i);
        mem.words := mem.words[(frame, i) := Entry(mem.words, source, i)];
      }
    }

    /** Gives every owned table back. */
    method Destroy()
      requires Holding()
      modifies this, mem.pmm, mem.pmm.usable, mem.pmm.used
      ensures mem.Valid() && root == 0 && tablePages == [] && mem.pmm.managed == old(mem.pmm.managed)
      ensures mem.pmm.Free() == old(mem.pmm.Free()) + Pages(old(tablePages))
    {
      var index := |tablePages|;
      assert tablePages[..index] == tablePages && Pages([]) == {};
      while index > 0
        invariant index <= |tablePages| && tablePages == old(tablePages) && mem.Valid()
        invariant mem.pmm.managed == old(mem.pmm.managed) && Unique(tablePages[..index])
        invariant InUse(Elements(tablePages[..index]), mem.pmm.managed, mem.pmm.Free())
        invariant mem.pmm.Free() + Pages(tablePages[..index]) == old(mem.pmm.Free()) + Pages(old(tablePages))
      {
        ghost var rest := tablePages[..index - 1];
        assert tablePages[..index][..index - 1] == rest && tablePages[..index] == rest + [tablePages[index - 1]];
        GiveBack(rest, tablePages[index - 1]);
        index := index - 1;
      }
      root, userBase, tablePages, nx, nodes := 0, 0, [], false, map[];
    }

    method GiveBack(ghost rest: seq<nat>, frame: nat)
      requires mem.Valid() && InUse(Elements(rest + [frame]), mem.pmm.managed, mem.pmm.Free()) && frame !in rest
      modifies mem.pmm, mem.pmm.usable, mem.pmm.used
      ensures mem.Valid() && mem.pmm.managed == old(mem.pmm.managed)
      ensures mem.pmm.Free() == old(mem.pmm.Free()) + {frame / 4096}
      ensures InUse(Elements(rest), mem.pmm.managed, mem.pmm.Free())
    {
      assert frame in Elements(rest + [frame]);
      assert forall f :: f in Elements(rest) ==> f in Elements(rest + [frame]) && f != frame;
      assert frame / 4096 < mem.pmm.pageCount;
      var ok := mem.pmm.FreePage(frame);
    }
  }
}
