/**
How far the tables of a kernel root reach towards a page: which levels exist. Translations alone do not tell
a missing directory entry from one whose pages are all absent; paging_mark_mmio and the table allocations of
paging_init depend on the difference.
*/
module TableDepth {
  import opened PageTables

  /** 0: no root entry; 1: no third-level entry; 2: no directory entry; 3: a table of small pages; 4: a large page. */
  function Depth(w: Words, root: nat, v: Vpn): (d: nat)
    ensures d <= 4
  {
    var e4 := Entry(w, root, v.i4);
    if P !in e4.bits then 0
    else
      var e3 := Entry(w, e4.address, v.i3);
      if P !in e3.bits then 1
      else
        var e2 := Entry(w, e3.address, v.i2);
        if P !in e2.bits then 2 else if LARGE in e2.bits then 4 else 3
  }

  /** How many of the upper indices of two pages agree, with 4 for the same 2 MiB region. */
  function Common(v: Vpn, s: Vpn): nat {
    if v.i4 != s.i4 then 0 else if v.i3 != s.i3 then 1 else if v.i2 != s.i2 then 2 else 4
  }

  function Deeper(a: nat, b: nat): nat { if a < b then b else a }

  /** The directory tables still to be allocated on the way to `v`. */
  function Missing(depth: nat): nat { if depth < 2 then 2 - depth else 0 }

  ghost predicate SameDepth(w: Words, w': Words, root: nat) {
    forall v: Vpn :: Depth(w', root, v) == Depth(w, root, v)
  }

  lemma SameDepthTrans(w: Words, w1: Words, w2: Words, root: nat)
    requires SameDepth(w, w1, root) && SameDepth(w1, w2, root)
    ensures SameDepth(w, w2, root)
  {}

  /** The tables reach at least to level `level` on the way to `s`, and elsewhere as far as before. */
  ghost predicate Deepened(w: Words, w': Words, root: nat, s: Vpn, level: nat) {
    forall v: Vpn ::
      Depth(w', root, v) == if Common(v, s) >= level then Deeper(Depth(w, root, v), level) else Depth(w, root, v)
  }

  /** A table hung under the root reaches one level towards the pages of its slot. */
  lemma AttachTop(w: Words, nodes: map<nat, Node>, root: nat, s: Vpn, t: nat)
    requires Tree(w, nodes, root, Kernel) && t !in nodes && P !in Entry(w, root, s.i4).bits
    ensures Deepened(w, Attached(w, root, s.i4, t, {P, W}), root, s, 1)
  {
    var w' := Attached(w, root, s.i4, t, {P, W});
    forall v: Vpn
      ensures Depth(w', root, v) == if Common(v, s) >= 1 then Deeper(Depth(w, root, v), 1) else Depth(w, root, v)
    {
      if v.i4 == s.i4 { assert Entry(w', t, v.i3) == ABSENT; } else { AttachApart(w, nodes, root, root, s.i4, t, v); }
    }
  }

  /** A walk that does not pass the new word is as long as before. */
  lemma AttachApart(w: Words, nodes: map<nat, Node>, root: nat, f: nat, i: nat, t: nat, v: Vpn)
    requires Tree(w, nodes, root, Kernel) && f in nodes && t !in nodes && !Reads(nodes[f], i, v)
    ensures Depth(Attached(w, f, i, t, {P, W}), root, v) == Depth(w, root, v)
  {
    var w' := Attached(w, f, i, t, {P, W});
    var e4 := Entry(w, root, v.i4);
    assert Entry(w', root, v.i4) == e4;
    if P in e4.bits {
      assert Leads(e4, nodes[root]);
      var e3 := Entry(w, e4.address, v.i3);
      assert Entry(w', e4.address, v.i3) == e3;
      if P in e3.bits {
        assert Leads(e3, nodes[e4.address]);
        assert Entry(w', e3.address, v.i2) == Entry(w, e3.address, v.i2);
      }
    }
  }

  /** A table hung under a third-level table reaches two levels. */
  lemma AttachMiddle(w: Words, nodes: map<nat, Node>, root: nat, pdpt: nat, s: Vpn, t: nat)
    requires Tree(w, nodes, root, Kernel) && t !in nodes && pdpt in nodes && nodes[pdpt] == Mid(s.i4)
    requires P in Entry(w, root, s.i4).bits && Entry(w, root, s.i4).address == pdpt && P !in Entry(w, pdpt, s.i3).bits
    ensures Deepened(w, Attached(w, pdpt, s.i3, t, {P, W}), root, s, 2)
  {
    var w' := Attached(w, pdpt, s.i3, t, {P, W});
    forall v: Vpn
      ensures Depth(w', root, v) == if Common(v, s) >= 2 then Deeper(Depth(w, root, v), 2) else Depth(w, root, v)
    {
      if v.i4 == s.i4 && v.i3 == s.i3 {
        assert Entry(w', root, v.i4) == Entry(w, root, v.i4);
        assert Entry(w', t, v.i2) == ABSENT;
      } else {
        AttachApart(w, nodes, root, pdpt, s.i3, t, v);
      }
    }
  }

  /** A word of a directory or below that the walk to `v` does not read. */
  lemma PutApart(w: Words, nodes: map<nat, Node>, root: nat, f: nat, i: nat, e: Pte, v: Vpn)
    requires Tree(w, nodes, root, Kernel) && f in nodes && (nodes[f].Leaf? || !Reads(nodes[f], i, v))
    ensures Depth(w[(f, i) := e], root, v) == Depth(w, root, v)
  {
    var w' := w[(f, i) := e];
    var e4 := Entry(w, root, v.i4);
    assert Entry(w', root, v.i4) == e4;
    if P in e4.bits {
      assert Leads(e4, nodes[root]);
      var e3 := Entry(w, e4.address, v.i3);
      assert Entry(w', e4.address, v.i3) == e3;
      if P in e3.bits {
        assert Leads(e3, nodes[e4.address]);
        assert Entry(w', e3.address, v.i2) == Entry(w, e3.address, v.i2);
      }
    }
  }

  /** The word of `s` in its page directory decides how the walk ends in its region. */
  lemma PutDirectory(w: Words, nodes: map<nat, Node>, root: nat, pd: nat, s: Vpn, e: Pte)
    requires Tree(w, nodes, root, Kernel) && pd in nodes && nodes[pd] == Low(s.i4, s.i3) && P in e.bits
    requires Depth(w, root, s) >= 2 && Entry(w, Entry(w, root, s.i4).address, s.i3).address == pd
    ensures forall v: Vpn ::
      Depth(w[(pd, s.i2) := e], root, v) ==
        if SameLarge(v, s) then (if LARGE in e.bits then 4 else 3) else Depth(w, root, v)
  {
    var w' := w[(pd, s.i2) := e];
    forall v: Vpn
      ensures Depth(w', root, v) == if SameLarge(v, s) then (if LARGE in e.bits then 4 else 3) else Depth(w, root, v)
    {
      if SameLarge(v, s) {
        var e4 := Entry(w, root, s.i4);
        assert Leads(e4, nodes[root]);
        assert Entry(w', root, s.i4) == e4 && Entry(w', e4.address, s.i3) == Entry(w, e4.address, s.i3);
      } else {
        PutApart(w, nodes, root, pd, s.i2, e, v);
      }
    }
  }

  /** Words of no table of the tree do not matter. */
  lemma OutsideTree(w: Words, w': Words, nodes: map<nat, Node>, root: nat)
    requires Tree(w, nodes, root, Kernel)
    requires forall f, i: nat :: f in nodes && !nodes[f].Leaf? ==> Entry(w', f, i) == Entry(w, f, i)
    ensures SameDepth(w, w', root)
  {
    forall v: Vpn ensures Depth(w', root, v) == Depth(w, root, v) {
      var e4 := Entry(w, root, v.i4);
      assert Entry(w', root, v.i4) == e4;
      if P in e4.bits {
        assert Leads(e4, nodes[root]);
        var e3 := Entry(w, e4.address, v.i3);
        assert Entry(w', e4.address, v.i3) == e3;
        if P in e3.bits {
          assert Leads(e3, nodes[e4.address]);
          assert Entry(w', e3.address, v.i2) == Entry(w, e3.address, v.i2);
        }
      }
    }
  }

  // -------------------------------------------------------- an identity mapping

  /** How far the tables reach towards `va` when large pages map everything below `limit`. */
  function Reach(va: nat, limit: nat): nat {
    if va / 0x80_0000_0000 * 0x80_0000_0000 >= limit then 0
    else if va / 0x4000_0000 * 0x4000_0000 >= limit then 1
    else if va / 0x20_0000 * 0x20_0000 >= limit then 2
    else 4
  }

  ghost predicate ReachTo(w: Words, root: nat, limit: nat) {
    forall va: nat :: va < 0x1_0000_0000_0000 ==> Depth(w, root, Split(va)) == Reach(va, limit)
  }

  /** A directory entry is present exactly in the regions below `limit`. */
  ghost predicate PresentTo(w: Words, root: nat, limit: nat) {
    forall va: nat :: va < 0x1_0000_0000_0000 ==>
      (Depth(w, root, Split(va)) >= 3 <==> va / 0x20_0000 * 0x20_0000 < limit)
  }

  /** Common indices of two addresses are common prefixes. */
  lemma CommonAddress(va: nat, a: nat)
    requires va < 0x1_0000_0000_0000 && a < 0x1_0000_0000_0000
    ensures Common(Split(va), Split(a)) ==
      if va / 0x80_0000_0000 != a / 0x80_0000_0000 then 0
      else if va / 0x4000_0000 != a / 0x4000_0000 then 1
      else if va / 0x20_0000 != a / 0x20_0000 then 2 else 4
  {
    SplitLarge(va, a);
    TopIndices(va);
    TopIndices(a);
  }

  lemma TopIndices(a: nat)
    requires a < 0x1_0000_0000_0000
    ensures Split(a).i4 == a / 0x80_0000_0000 && a / 0x4000_0000 == Split(a).i4 * 512 + Split(a).i3
  {
    assert a / 0x80_0000_0000 == a / 0x4000_0000 / 512;
  }

  lemma Fits512(q: nat, b: nat)
    ensures q * 512 <= b <==> q * 512 < b || q == b / 512
  {}

  lemma Fits18(q: nat, b: nat)
    ensures q * 0x4_0000 <= b <==> q * 0x4_0000 < b || q == b / 0x4_0000
  {}

  lemma BelowTop(va: nat, b: nat)
    ensures va / 0x80_0000_0000 * 0x80_0000_0000 < b * 0x20_0000 + 0x20_0000 <==>
            va / 0x80_0000_0000 * 0x80_0000_0000 < b * 0x20_0000 || va / 0x80_0000_0000 == b / 0x4_0000
  {
    Fits18(va / 0x80_0000_0000, b);
  }

  lemma BelowMiddle(va: nat, b: nat)
    ensures va / 0x4000_0000 * 0x4000_0000 < b * 0x20_0000 + 0x20_0000 <==>
            va / 0x4000_0000 * 0x4000_0000 < b * 0x20_0000 || va / 0x4000_0000 == b / 512
  {
    Fits512(va / 0x4000_0000, b);
  }

  lemma BelowLow(va: nat, a: nat)
    requires a % 0x20_0000 == 0
    ensures va / 0x20_0000 * 0x20_0000 < a + 0x20_0000 <==>
      va / 0x20_0000 * 0x20_0000 < a || va / 0x20_0000 == a / 0x20_0000
  {}

  lemma NestedRegions(va: nat)
    ensures va / 0x4000_0000 == va / 0x20_0000 / 512 && va / 0x80_0000_0000 == va / 0x4000_0000 / 512
    ensures va / 0x80_0000_0000 == va / 0x20_0000 / 0x4_0000
    ensures va / 0x80_0000_0000 * 0x80_0000_0000 <= va / 0x4000_0000 * 0x4000_0000 <= va / 0x20_0000 * 0x20_0000
  {}

  /** One more large page at the limit. */
  lemma ReachStep(va: nat, a: nat)
    requires a % 0x20_0000 == 0
    ensures Reach(va, a + 0x20_0000) ==
      if va / 0x20_0000 == a / 0x20_0000 then 4
      else if va / 0x4000_0000 == a / 0x4000_0000 then Deeper(Reach(va, a), 2)
      else if va / 0x80_0000_0000 == a / 0x80_0000_0000 then Deeper(Reach(va, a), 1)
      else Reach(va, a)
  {
    BelowTop(va, a / 0x20_0000);
    BelowMiddle(va, a / 0x20_0000);
    BelowLow(va, a);
    NestedRegions(va);
    NestedRegions(a);
  }

  /** The tables that map everything below `limit` by large pages: the root and one for each 512 GiB and 1 GiB begun. */
  function TablesFor(limit: nat): nat {
    1 + (limit + 0x7F_FFFF_FFFF) / 0x80_0000_0000 + (limit + 0x3FFF_FFFF) / 0x4000_0000
  }

  lemma OffTop(q: nat, x: nat)
    requires x < 2 * 0x80_0000_0000
    ensures (q * 0x80_0000_0000 + x) / 0x80_0000_0000 == q + if x < 0x80_0000_0000 then 0 else 1
  {}

  lemma OffMiddle(q: nat, x: nat)
    requires x < 2 * 0x4000_0000
    ensures (q * 0x4000_0000 + x) / 0x4000_0000 == q + if x < 0x4000_0000 then 0 else 1
  {}

  lemma TopCount(b: nat)
    ensures (b * 0x20_0000 + 0x20_0000 + 0x7F_FFFF_FFFF) / 0x80_0000_0000 ==
            (b * 0x20_0000 + 0x7F_FFFF_FFFF) / 0x80_0000_0000 + if b % 0x4_0000 == 0 then 1 else 0
  {
    var q, r := b / 0x4_0000, b % 0x4_0000;
    OffTop(q, r * 0x20_0000 + 0x20_0000 + 0x7F_FFFF_FFFF);
    OffTop(q, r * 0x20_0000 + 0x7F_FFFF_FFFF);
  }

  lemma MiddleCount(b: nat)
    ensures (b * 0x20_0000 + 0x20_0000 + 0x3FFF_FFFF) / 0x4000_0000 ==
            (b * 0x20_0000 + 0x3FFF_FFFF) / 0x4000_0000 + if b % 512 == 0 then 1 else 0
  {
    var q, r := b / 512, b % 512;
    OffMiddle(q, r * 0x20_0000 + 0x20_0000 + 0x3FFF_FFFF);
    OffMiddle(q, r * 0x20_0000 + 0x3FFF_FFFF);
  }

  /** The next large page needs exactly the tables that the count grows by. */
  lemma TablesStep(a: nat)
    requires a % 0x20_0000 == 0
    ensures TablesFor(a + 0x20_0000) == TablesFor(a) + Missing(Reach(a, a))
  {
    var b := a / 0x20_0000;
    TopCount(b);
    MiddleCount(b);
    NestedRegions(a);
    assert b % 0x4_0000 == 0 ==> b % 512 == 0;
    assert a / 0x80_0000_0000 * 0x80_0000_0000 >= a <==> b % 0x4_0000 == 0;
    assert a / 0x4000_0000 * 0x4000_0000 >= a <==> b % 512 == 0;
  }

  lemma MoreTop(a: nat, b: nat)
    requires a <= b
    ensures a / 0x80_0000_0000 <= b / 0x80_0000_0000
  {}

  lemma MoreMiddle(a: nat, b: nat)
    requires a <= b
    ensures a / 0x4000_0000 <= b / 0x4000_0000
  {}

  lemma MoreTables(a: nat, limit: nat)
    requires a <= limit
    ensures TablesFor(a) <= TablesFor(limit)
  {
    MoreTop(a + 0x7F_FFFF_FFFF, limit + 0x7F_FFFF_FFFF);
    MoreMiddle(a + 0x3FFF_FFFF, limit + 0x3FFF_FFFF);
  }

  /** Towards the pages of `s` the tables reach a directory, elsewhere as far as before. */
  ghost predicate Opened(w: Words, w': Words, root: nat, s: Vpn) {
    forall v: Vpn :: Depth(w', root, v) == Deeper(Depth(w, root, v), if Common(v, s) < 2 then Common(v, s) else 2)
  }

  /** The same, and the region of `s` is a large page. */
  ghost predicate Grown(w: Words, w': Words, root: nat, s: Vpn) {
    forall v: Vpn :: Depth(w', root, v) == Deeper(Depth(w, root, v), Common(v, s))
  }

  lemma OpenedTwice(w: Words, w1: Words, w2: Words, root: nat, s: Vpn)
    requires Deepened(w, w1, root, s, 1) && Deepened(w1, w2, root, s, 2)
    ensures Opened(w, w2, root, s)
  {}

  /** A word that is present already deepens nothing. */
  lemma Deep(w: Words, root: nat, s: Vpn, level: nat)
    requires 1 <= level <= 2 && Depth(w, root, s) >= level
    ensures Deepened(w, w, root, s, level)
  {}

  lemma ReachGrown(w: Words, w': Words, root: nat, a: nat)
    requires a % 0x20_0000 == 0 && a + 0x20_0000 <= 0x1_0000_0000_0000
    requires ReachTo(w, root, a) && Grown(w, w', root, Split(a))
    ensures ReachTo(w', root, a + 0x20_0000)
  {
    forall va: nat | va < 0x1_0000_0000_0000 ensures Depth(w', root, Split(va)) == Reach(va, a + 0x20_0000) {
      assert Depth(w, root, Split(va)) == Reach(va, a);
      CommonAddress(va, a);
      ReachStep(va, a);
      NestedRegions(va);
      NestedRegions(a);
    }
  }
}
