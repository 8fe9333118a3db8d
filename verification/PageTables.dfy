/**
Four-level page tables as data. A page-table word is the pair of its address field
(bits 12 to 51) and the set of its other set bits; memory is keyed by table frame and
index, and a word that was never written is zero. `Resolve` is what the processor sees
through a kernel root, `UserResolve` what paging_user_translate sees through a user root.
*/
module PageTables {
  import opened Common

  // Bits of a page-table entry (Intel SDM volume 3A, section 4.5).
  const P: nat := 0
  const W: nat := 1
  const U: nat := 2
  const PWT: nat := 3
  const PCD: nat := 4
  const LARGE: nat := 7
  const NX: nat := 63

  datatype Pte = Pte(address: nat, bits: set<nat>)

  const ABSENT := Pte(0, {})

  type Words = map<(nat, nat), Pte>

  function Entry(w: Words, frame: nat, i: nat): Pte {
    if (frame, i) in w then w[(frame, i)] else ABSENT
  }

  /** All 512 words of a frame set to zero. */
  function Zeroed(w: Words, frame: nat): Words {
    map k | k in w && k.0 != frame :: w[k]
  }

  /** A virtual page, as its four table indices. */
  datatype Vpn = Vpn(i4: nat, i3: nat, i2: nat, i1: nat)

  function Split(va: nat): Vpn {
    Vpn(va / 0x80_0000_0000 % 512, va / 0x4000_0000 % 512, va / 0x20_0000 % 512, va / 0x1000 % 512)
  }

  /** Where a page lies and with which attribute bits. */
  datatype Mapping = Mapping(address: nat, bits: set<nat>)

  function Index(v: Vpn, level: nat): nat {
    if level == 4 then v.i4 else if level == 3 then v.i3 else if level == 2 then v.i2 else v.i1
  }

  /** The processor's walk from a table of the given level (4 is the root) down to a leaf. */
  function Walk(w: Words, frame: nat, level: nat, v: Vpn): Option<Mapping>
    requires 1 <= level <= 4
    decreases level
  {
    var e := Entry(w, frame, Index(v, level));
    if P !in e.bits then None
    else if level == 1 then Some(Mapping(e.address, e.bits))
    else if level == 2 && LARGE in e.bits then
      Some(Mapping(e.address / 0x20_0000 * 0x20_0000 + v.i1 * 4096, e.bits - {LARGE}))
    else Walk(w, e.address, level - 1, v)
  }

  function Resolve(w: Words, root: nat, v: Vpn): Option<Mapping> {
    Walk(w, root, 4, v)
  }

  /** The walk of paging_user_translate: user entries only, and no large pages. */
  function UserWalk(w: Words, frame: nat, level: nat, v: Vpn): Option<Mapping>
    requires 1 <= level <= 4
    decreases level
  {
    var e := Entry(w, frame, Index(v, level));
    if P !in e.bits || U !in e.bits || (2 <= level <= 3 && LARGE in e.bits) then None
    else if level == 1 then Some(Mapping(e.address, e.bits))
    else UserWalk(w, e.address, level - 1, v)
  }

  function UserResolve(w: Words, root: nat, v: Vpn): Option<Mapping> {
    UserWalk(w, root, 4, v)
  }

  // ---------------------------------------------------------------------- trees

  /** The place of a table in its tree, named by the indices that lead to it. */
  datatype Node = Root | Mid(a: nat) | Low(a: nat, b: nat) | Leaf(a: nat, b: nat, c: nat)

  function Child(n: Node, i: nat): Node
    requires !n.Leaf?
  {
    match n
    case Root => Mid(i)
    case Mid(a) => Low(a, i)
    case Low(a, b) => Leaf(a, b, i)
  }

  /** Whether the walk to `v` reads word `i` of a table at `n`. */
  predicate Reads(n: Node, i: nat, v: Vpn) {
    match n
    case Root => v.i4 == i
    case Mid(a) => v.i4 == a && v.i3 == i
    case Low(a, b) => v.i4 == a && v.i3 == b && v.i2 == i
    case Leaf(a, b, c) => v.i4 == a && v.i3 == b && v.i2 == c && v.i1 == i
  }

  /** Word `i` of the table at `n` leads on to another table. */
  predicate Leads(e: Pte, n: Node) {
    P in e.bits && !n.Leaf? && !(n.Low? && LARGE in e.bits)
  }

  /** Which words of a root belong to the tree: all of a kernel root, one of a user root. */
  datatype Scope = Kernel | User(index: nat) {
    predicate Owns(n: Node, i: nat) {
      Kernel? || !n.Root? || i == index
    }
  }

  /** Every table is reached by exactly the indices its node names. */
  ghost predicate Tree(w: Words, nodes: map<nat, Node>, root: nat, scope: Scope) {
    && root in nodes && nodes[root] == Root
    && forall f, i :: f in nodes && scope.Owns(nodes[f], i) && Leads(Entry(w, f, i), nodes[f]) ==>
         Entry(w, f, i).address in nodes && nodes[Entry(w, f, i).address] == Child(nodes[f], i)
  }

  /** A user root holds no user entry outside its own slot. */
  ghost predicate Private(w: Words, root: nat, index: nat) {
    forall i :: i != index ==> U !in Entry(w, root, i).bits
  }

  /** The node of the table that the walk to `v` visits at a level. */
  function NodeOn(v: Vpn, level: nat): Node {
    if level == 4 then Root else if level == 3 then Mid(v.i4) else if level == 2 then Low(v.i4, v.i3)
    else Leaf(v.i4, v.i3, v.i2)
  }

  /** A word off the walk of `v` may change unnoticed. */
  lemma {:induction false} WalkPut(w: Words, nodes: map<nat, Node>, root: nat, frame: nat, level: nat, f: nat, i: nat,
      e: Pte, v: Vpn)
    requires Tree(w, nodes, root, Kernel) && 1 <= level <= 4 && frame in nodes && nodes[frame] == NodeOn(v, level)
    requires f in nodes && !Reads(nodes[f], i, v)
    ensures Walk(w[(f, i) := e], frame, level, v) == Walk(w, frame, level, v)
    decreases level
  {
    var x := Entry(w, frame, Index(v, level));
    assert Entry(w[(f, i) := e], frame, Index(v, level)) == x;
    if Leads(x, nodes[frame]) { WalkPut(w, nodes, root, x.address, level - 1, f, i, e, v); }
  }

  lemma PutElsewhere(w: Words, nodes: map<nat, Node>, root: nat, f: nat, i: nat, e: Pte, v: Vpn)
    requires Tree(w, nodes, root, Kernel) && f in nodes && !Reads(nodes[f], i, v)
    ensures Resolve(w[(f, i) := e], root, v) == Resolve(w, root, v)
  {}

  // ------------------------------------------------------------ growing a tree

  /** A zeroed table `t` hung under word `i` of table `f`. */
  function Attached(w: Words, f: nat, i: nat, t: nat, flags: set<nat>): Words {
    Zeroed(w, t)[(f, i) := Pte(t, flags)]
  }

  lemma AttachTree(w: Words, nodes: map<nat, Node>, root: nat, scope: Scope, f: nat, i: nat, t: nat, flags: set<nat>)
    requires Tree(w, nodes, root, scope) && f in nodes && !nodes[f].Leaf? && t !in nodes
    requires P !in Entry(w, f, i).bits
    ensures Tree(Attached(w, f, i, t, flags), nodes[t := Child(nodes[f], i)], root, scope)
  {}

  /** Hanging an empty table into an absent word changes no translation. */
  lemma {:induction false} WalkAttach(w: Words, nodes: map<nat, Node>, root: nat, frame: nat, level: nat, f: nat,
      i: nat, t: nat, flags: set<nat>, v: Vpn)
    requires Tree(w, nodes, root, Kernel) && 1 <= level <= 4 && frame in nodes && nodes[frame] == NodeOn(v, level)
    requires f in nodes && !nodes[f].Leaf? && t !in nodes && LARGE !in flags && P !in Entry(w, f, i).bits
    ensures Walk(Attached(w, f, i, t, flags), frame, level, v) == Walk(w, frame, level, v)
    decreases level
  {
    var w' := Attached(w, f, i, t, flags);
    var x := Entry(w, frame, Index(v, level));
    if (frame, Index(v, level)) == (f, i) {
      if level > 1 { assert Entry(w', t, Index(v, level - 1)) == ABSENT; }
    } else {
      assert Entry(w', frame, Index(v, level)) == x;
      if Leads(x, nodes[frame]) { WalkAttach(w, nodes, root, x.address, level - 1, f, i, t, flags, v); }
    }
  }

  lemma AttachResolve(w: Words, nodes: map<nat, Node>, root: nat, f: nat, i: nat, t: nat, flags: set<nat>, v: Vpn)
    requires Tree(w, nodes, root, Kernel) && f in nodes && !nodes[f].Leaf? && t !in nodes && LARGE !in flags
    requires P !in Entry(w, f, i).bits
    ensures Resolve(Attached(w, f, i, t, flags), root, v) == Resolve(w, root, v)
  {
    WalkAttach(w, nodes, root, root, 4, f, i, t, flags, v);
  }

  // ------------------------------------------------------------- the user half

  /** A user walk that can succeed stays inside the tree. */
  predicate UserLeads(e: Pte, level: nat) {
    P in e.bits && U in e.bits && !(2 <= level <= 3 && LARGE in e.bits) && level > 1
  }

  /** A word of an owned table written off the walk of `v` is not noticed. */
  lemma UserPutElsewhere(w: Words, nodes: map<nat, Node>, root: nat, k: nat, f: nat, i: nat, e: Pte, v: Vpn)
    requires Tree(w, nodes, root, User(k)) && Private(w, root, k) && f in nodes && !nodes[f].Root?
    requires !Reads(nodes[f], i, v)
    ensures UserResolve(w[(f, i) := e], root, v) == UserResolve(w, root, v)
  {}

  lemma {:induction false} UserWalkAttach(w: Words, nodes: map<nat, Node>, root: nat, k: nat, frame: nat, level: nat,
      f: nat, i: nat, t: nat, flags: set<nat>, v: Vpn)
    requires Tree(w, nodes, root, User(k)) && 1 <= level <= 4 && frame in nodes && nodes[frame] == NodeOn(v, level)
    requires f in nodes && !nodes[f].Leaf? && t !in nodes && P !in Entry(w, f, i).bits && v.i4 == k
    ensures UserWalk(Attached(w, f, i, t, flags), frame, level, v) == UserWalk(w, frame, level, v)
    decreases level
  {
    var w' := Attached(w, f, i, t, flags);
    var x := Entry(w, frame, Index(v, level));
    if (frame, Index(v, level)) == (f, i) {
      if level > 1 { assert Entry(w', t, Index(v, level - 1)) == ABSENT; }
    } else {
      assert Entry(w', frame, Index(v, level)) == x;
      if UserLeads(x, level) {
        assert Leads(x, nodes[frame]);
        UserWalkAttach(w, nodes, root, k, x.address, level - 1, f, i, t, flags, v);
      }
    }
  }

  lemma UserAttachResolve(w: Words, nodes: map<nat, Node>, root: nat, k: nat, f: nat, i: nat, t: nat, flags: set<nat>,
      v: Vpn)
    requires Tree(w, nodes, root, User(k)) && Private(w, root, k) && f in nodes && !nodes[f].Leaf?
    requires t !in nodes && (nodes[f].Root? ==> i == k && f == root) && P !in Entry(w, f, i).bits
    ensures UserResolve(Attached(w, f, i, t, flags), root, v) == UserResolve(w, root, v)
  {
    if v.i4 == k {
      UserWalkAttach(w, nodes, root, k, root, 4, f, i, t, flags, v);
    } else {
      assert Entry(Attached(w, f, i, t, flags), root, v.i4) == Entry(w, root, v.i4);
    }
  }

  // ------------------------------------------------------------------ addresses

  predicate SameLarge(v: Vpn, u: Vpn) {
    v.i4 == u.i4 && v.i3 == u.i3 && v.i2 == u.i2
  }

  /** Two 48-bit addresses share their upper indices exactly when they share their 2 MiB region. */
  lemma SplitLarge(a: nat, b: nat)
    requires a < 0x1_0000_0000_0000 && b < 0x1_0000_0000_0000
    ensures SameLarge(Split(a), Split(b)) <==> a / 0x20_0000 == b / 0x20_0000
  {
    LargeDigits(a);
    LargeDigits(b);
  }

  lemma LargeDigits(a: nat)
    requires a < 0x1_0000_0000_0000
    ensures a / 0x20_0000 == Split(a).i4 * 0x40000 + Split(a).i3 * 512 + Split(a).i2
  {
    var n := a / 0x20_0000;
    assert a / 0x4000_0000 == n / 512;
    assert a / 0x80_0000_0000 == n / 0x40000;
  }

  /** The four indices determine the page of a 48-bit address. */
  lemma SplitPage(a: nat, b: nat)
    requires a < 0x1_0000_0000_0000 && b < 0x1_0000_0000_0000
    ensures Split(a) == Split(b) <==> a / 4096 == b / 4096
  {
    SplitLarge(a, b);
    PageDigit(a);
    PageDigit(b);
  }

  lemma PageDigit(a: nat)
    ensures a / 4096 == a / 0x20_0000 * 512 + Split(a).i1
    ensures a / 4096 * 4096 == a / 0x20_0000 * 0x20_0000 + Split(a).i1 * 4096
  {
    RegionOf(a);
    assert Split(a).i1 == a / 4096 - a / 4096 / 512 * 512;
  }

  lemma RegionOf(a: nat)
    ensures a / 4096 / 512 == a / 0x20_0000
  {
    var page, region := a / 4096, a / 4096 / 512;
    assert region * 0x20_0000 <= page * 4096 <= a;
    assert page <= region * 512 + 511 && a <= page * 4096 + 4095;
  }
}
