/** Generation counters of 32-bit handles: they skip zero, so they run around 1 .. 2^32 - 1. */
module Generations {

  const PERIOD: nat := 0xFFFF_FFFF

  predicate IsGeneration(g: nat) { 1 <= g <= PERIOD }

  function Next(g: nat): nat {
    if (g + 1) % 0x1_0000_0000 == 0 then 1 else (g + 1) % 0x1_0000_0000
  }

  function Advance(g: nat, k: nat): nat {
    if k == 0 then g else Next(Advance(g, k - 1))
  }

  /** After `k` steps the counter stands `k` further round its cycle. */
  lemma {:induction false} AdvanceIs(g: nat, k: nat)
    requires IsGeneration(g)
    ensures Advance(g, k) == (g - 1 + k) % 0xFFFF_FFFF + 1
  {
    if k > 0 {
      AdvanceIs(g, k - 1);
      ModStep(g - 1 + k - 1);
    }
  }

  lemma ModStep(n: nat)
    ensures (n + 1) % 0xFFFF_FFFF == if n % 0xFFFF_FFFF == 0xFFFF_FFFE then 0 else n % 0xFFFF_FFFF + 1
  {}

  /** A counter is back where it was exactly after whole periods. */
  lemma Recurs(g: nat, k: nat)
    requires IsGeneration(g)
    ensures IsGeneration(Advance(g, k)) && (Advance(g, k) == g <==> k % 0xFFFF_FFFF == 0)
  {
    AdvanceIs(g, k);
    var q, r := k / 0xFFFF_FFFF, k % 0xFFFF_FFFF;
    assert g - 1 + k == q * 0xFFFF_FFFF + (g - 1 + r);
    assert (g - 1 + k) % 0xFFFF_FFFF == (g - 1 + r) % 0xFFFF_FFFF;
  }
}

/** Per-process capability tables with generation-checked handles. */
module Capabilities {
  import opened Generations

  const SLOTS: nat := 16
  const NONE: nat := 0
  const CLOCK: nat := 1
  const INPUT: nat := 2
  const SURFACE: nat := 3
  const IPC: nat := 4
  const ANONYMOUS_STREAM: nat := 5
  const RAW_NETWORK: nat := 6

  // Bit positions of the rights.
  const READ: nat := 0
  const WRITE: nat := 1
  const WAIT: nat := 2
  const PRESENT: nat := 3
  const SEND: nat := 4
  const RECEIVE: nat := 5
  const CONNECT: nat := 6

  datatype Entry = Entry(target: nat, generation: nat, kind: nat, rights: set<nat>)

  datatype Table = Table(principal: nat, entries: seq<Entry>)

  function AllowedRights(kind: nat): set<nat> {
    if kind == CLOCK then {READ}
    else if kind == INPUT then {READ, WAIT}
    else if kind == SURFACE then {PRESENT}
    else if kind == IPC then {SEND, RECEIVE}
    else if kind == ANONYMOUS_STREAM || kind == RAW_NETWORK then {CONNECT}
    else {}
  }

  /** What may be granted, right by right. */
  lemma RightsMatrix(kind: nat, right: nat)
    ensures right in AllowedRights(kind) <==>
      (kind, right) in {(CLOCK, READ), (INPUT, READ), (INPUT, WAIT), (SURFACE, PRESENT), (IPC, SEND), (IPC, RECEIVE),
                        (ANONYMOUS_STREAM, CONNECT), (RAW_NETWORK, CONNECT)}
  {}

  /** The fields fit the handle; an empty slot has no object and no rights, a taken one only rights of its kind. */
  predicate Proper(e: Entry) {
    && IsGeneration(e.generation) && e.kind <= RAW_NETWORK
    && if e.kind == NONE then e.target == 0 && e.rights == {} else e.rights != {} && e.rights <= AllowedRights(e.kind)
  }

  predicate WellFormed(t: Table) {
    |t.entries| == SLOTS && forall s :: 0 <= s < SLOTS ==> Proper(t.entries[s])
  }

  function MakeHandle(slot: nat, e: Entry): nat {
    0xA6C5 * 0x1_0000_0000_0000 + e.generation * 0x1_0000 + e.kind * 0x100 + slot + 1
  }

  lemma LowByte(q: nat, r: nat)
    requires r < 256
    ensures (q * 256 + r) / 256 == q && (q * 256 + r) % 256 == r
  {}

  lemma LowWord(q: nat, r: nat)
    requires r < 0x1_0000_0000
    ensures (q * 0x1_0000_0000 + r) / 0x1_0000_0000 == q && (q * 0x1_0000_0000 + r) % 0x1_0000_0000 == r
  {}

  lemma TwoBytes(h: nat)
    ensures h / 0x1_0000 == h / 256 / 256
  {}

  lemma SixBytes(h: nat)
    ensures h / 0x1_0000_0000_0000 == h / 0x1_0000 / 0x1_0000_0000
  {}

  /** A handle determines slot, generation and kind. */
  lemma HandleFields(slot: nat, e: Entry)
    requires slot < SLOTS && e.generation < 0x1_0000_0000 && e.kind < 256
    ensures
      var h := MakeHandle(slot, e);
      && h / 0x1_0000_0000_0000 == 0xA6C5 && h / 0x1_0000 % 0x1_0000_0000 == e.generation
      && h / 0x100 % 256 == e.kind && h % 256 == slot + 1
  {
    var y := 0xA6C5 * 0x1_0000_0000 + e.generation;
    var x := y * 256 + e.kind;
    LowByte(x, slot + 1);
    LowByte(y, e.kind);
    LowWord(0xA6C5, e.generation);
    TwoBytes(MakeHandle(slot, e));
    SixBytes(MakeHandle(slot, e));
  }

  lemma FieldsHandle(h: nat)
    requires h / 0x1_0000_0000_0000 == 0xA6C5 && h % 256 > 0
    ensures h == MakeHandle(h % 256 - 1, Entry(0, h / 0x1_0000 % 0x1_0000_0000, h / 0x100 % 256, {}))
  {
    var x := h / 0x100;
    var y := x / 0x100;
    assert h == 0x100 * x + h % 256 && x == 0x100 * y + x % 256;
    assert y == h / 0x1_0000 && y / 0x1_0000_0000 == h / 0x1_0000_0000_0000;
    assert y == 0xA6C5 * 0x1_0000_0000 + y % 0x1_0000_0000;
  }

  /** The capability a handle names: the slot whose present handle it is. */
  predicate Names(t: Table, h: nat, slot: nat, kind: nat, rights: set<nat>)
    requires WellFormed(t)
  {
    && slot < SLOTS && h == MakeHandle(slot, t.entries[slot])
    && t.entries[slot].kind == kind && rights <= t.entries[slot].rights
  }

  /** What a lookup of `h` by the table's process answers with. */
  predicate Resolves(t: Table, h: nat, slot: nat, kind: nat, rights: set<nat>)
    requires WellFormed(t)
  {
    t.principal != 0 && Names(t, h, slot, kind, rights)
  }

  /** Pid and slot mixed into 32 bits. */
  function Mixed(low: bv32, high: bv32, slot: bv32): bv32 {
    low ^ high ^ 0xA6C5_0001 ^ ((slot + 1) * 0x9E37_79B9)
  }

  /** Where the generation of a slot starts: never at zero. */
  function InitialGeneration(principal: nat, slot: nat): (g: nat)
    requires slot < SLOTS
    ensures IsGeneration(g)
  {
    var low, high := principal % 0x1_0000_0000, principal / 0x1_0000_0000 % 0x1_0000_0000;
    var mixed := Mixed(low as bv32, high as bv32, slot as bv32) as nat;
    if mixed != 0 then mixed else slot + 1
  }

  class CapabilityTable {
    var table: Table

    /** An empty table for a process. */
    constructor (principal: nat)
      ensures Valid() && table.principal == principal
      ensures forall s :: 0 <= s < SLOTS ==> table.entries[s] == Entry(0, InitialGeneration(principal, s), NONE, {})
    {
      var empty := seq(SLOTS, s requires 0 <= s < SLOTS => Entry(0, InitialGeneration(principal, s), NONE, {}));
      table := Table(principal, empty);
    }

    ghost predicate Valid()
      reads this
    {
      WellFormed(table)
    }

    /** Puts a capability in the first empty slot; 0 when the request is refused or the table is full. */
    method Grant(kind: nat, rights: set<nat>, target: nat) returns (handle: nat)
      requires Valid()
      modifies this
      ensures Valid() && Granted(old(table), table, kind, rights, target, handle)
    {
      var valid := AllowedRights(kind);
      if table.principal == 0 || valid == {} || rights == {} || !(rights <= valid) { return 0; }
      for slot := 0 to SLOTS
        invariant forall s :: 0 <= s < slot ==> table.entries[s].kind != NONE
        invariant table == old(table)
      {
        var e := table.entries[slot];
        if e.kind == NONE {
          var entry := Entry(target, e.generation, kind, rights);
          table := Table(table.principal, table.entries[slot := entry]);
          handle := MakeHandle(slot, entry);
          assert GrantedAt(old(table), table, kind, rights, target, handle, slot);
          return;
        }
      }
      return 0;
    }

    /** A handle resolves exactly when it is the present handle of a slot of that kind with those rights. */
    method Resolve(handle: nat, kind: nat, rights: set<nat>) returns (r: bool, target: nat)
      requires Valid() && handle < 0x1_0000_0000_0000_0000
      ensures r <==> exists slot: nat :: Resolves(table, handle, slot, kind, rights)
      ensures forall slot: nat :: Resolves(table, handle, slot, kind, rights) ==> target == table.entries[slot].target
    {
      forall slot: nat | slot < SLOTS { HandleFields(slot, table.entries[slot]); }
      if handle == 0 || table.principal == 0 || handle / 0x1_0000_0000_0000 != 0xA6C5 { return false, 0; }
      var encodedSlot := handle % 256;
      if encodedSlot == 0 || encodedSlot > SLOTS { return false, 0; }
      var slot := encodedSlot - 1;
      var e := table.entries[slot];
      var generation, encodedKind := handle / 0x1_0000 % 0x1_0000_0000, handle / 0x100 % 256;
      if e.kind != kind || encodedKind != kind { return false, 0; }
      if e.generation != generation || !(rights <= e.rights) { return false, 0; }
      FieldsHandle(handle);
      assert Resolves(table, handle, slot, kind, rights);
      return true, e.target;
    }

    /** A slot of that kind with those rights. */
    predicate Fits(slot: nat, kind: nat, rights: set<nat>)
      requires Valid()
      reads this
    {
      slot < SLOTS && table.entries[slot].kind == kind && rights <= table.entries[slot].rights
    }

    /** The handle of the first fitting slot, or 0. */
    method Find(kind: nat, rights: set<nat>) returns (handle: nat)
      requires Valid()
      ensures handle != 0 <==> table.principal != 0 && exists slot: nat :: Fits(slot, kind, rights)
      ensures handle != 0 ==>
        exists slot: nat ::
          Resolves(table, handle, slot, kind, rights) && forall s: nat :: s < slot ==> !Fits(s, kind, rights)
    {
      if table.principal == 0 { return 0; }
      for slot := 0 to SLOTS
        invariant forall s: nat :: s < slot ==> !Fits(s, kind, rights)
      {
        if Fits(slot, kind, rights) {
          handle := MakeHandle(slot, table.entries[slot]);
          assert Resolves(table, handle, slot, kind, rights);
          return;
        }
      }
      return 0;
    }

    /** Empties the slot a handle names and moves its generation on. */
    method Revoke(handle: nat) returns (r: bool)
      requires Valid() && handle < 0x1_0000_0000_0000_0000
      modifies this
      ensures Valid() && Revoked(old(table), table, handle, r)
    {
      forall slot: nat | slot < SLOTS { HandleFields(slot, table.entries[slot]); }
      if handle == 0 || handle / 0x1_0000_0000_0000 != 0xA6C5 { return false; }
      var encodedSlot := handle % 256;
      if encodedSlot == 0 || encodedSlot > SLOTS { return false; }
      var slot := encodedSlot - 1;
      var e := table.entries[slot];
      if MakeHandle(slot, e) != handle || e.kind == NONE { return false; }
      table := Table(table.principal, table.entries[slot := Entry(0, Next(e.generation), NONE, {})]);
      assert Revokes(old(table), handle, slot);
      return true;
    }
  }

  /** No slot is empty. */
  ghost predicate Full(t: Table)
    requires WellFormed(t)
  {
    forall s :: 0 <= s < SLOTS ==> t.entries[s].kind != NONE
  }

  /** How a grant changes a table: the first empty slot takes the capability, or nothing changes. */
  ghost predicate Granted(t: Table, t': Table, kind: nat, rights: set<nat>, target: nat, handle: nat)
    requires WellFormed(t)
  {
    if handle == 0 then
      && t' == t
      && (t.principal == 0 || rights == {} || !(rights <= AllowedRights(kind)) || Full(t))
    else exists slot: nat :: GrantedAt(t, t', kind, rights, target, handle, slot)
  }

  ghost predicate GrantedAt(t: Table, t': Table, kind: nat, rights: set<nat>, target: nat, handle: nat, slot: nat)
    requires WellFormed(t)
  {
    && slot < SLOTS && t.entries[slot].kind == NONE && (forall s :: 0 <= s < slot ==> t.entries[s].kind != NONE)
    && kind != NONE && t.principal != 0 && rights != {} && rights <= AllowedRights(kind)
    && t' == t.(entries := t.entries[slot := Entry(target, t.entries[slot].generation, kind, rights)])
    && handle == MakeHandle(slot, t'.entries[slot])
  }

  ghost predicate Revokes(t: Table, handle: nat, slot: nat)
    requires WellFormed(t)
  {
    slot < SLOTS && t.entries[slot].kind != NONE && handle == MakeHandle(slot, t.entries[slot])
  }

  ghost predicate Revoked(t: Table, t': Table, handle: nat, r: bool)
    requires WellFormed(t)
  {
    && (r <==> exists slot: nat :: Revokes(t, handle, slot))
    && (!r ==> t' == t)
    && forall slot: nat :: r && Revokes(t, handle, slot) ==>
         t' == t.(entries := t.entries[slot := Entry(0, Next(t.entries[slot].generation), NONE, {})])
  }

  /** Exactly the first `k` slots are taken. */
  ghost predicate FilledTo(t: Table, k: nat) {
    WellFormed(t) && forall s :: 0 <= s < SLOTS ==> (t.entries[s].kind != NONE <==> s < k)
  }

  ghost predicate Holds(t: Table, s: nat, kind: nat, rights: set<nat>, target: nat) {
    s < |t.entries| && t.entries[s].kind == kind && t.entries[s].rights == rights && t.entries[s].target == target
  }

  /** A proper request to a table that is not full succeeds and leaves the other slots alone. */
  lemma GrantNext(t: Table, t': Table, k: nat, kind: nat, rights: set<nat>, target: nat, handle: nat)
    requires FilledTo(t, k) && k < SLOTS && t.principal != 0 && rights != {} && rights <= AllowedRights(kind)
    requires Granted(t, t', kind, rights, target, handle)
    ensures handle != 0 && FilledTo(t', k + 1) && t'.principal == t.principal && Holds(t', k, kind, rights, target)
    ensures forall s :: 0 <= s < k ==> t'.entries[s] == t.entries[s]
  {
    assert t.entries[k].kind == NONE;
    var slot: nat :| GrantedAt(t, t', kind, rights, target, handle, slot);
  }

  // ------------------------------------------------------------------- runs

  datatype Op =
    | Grant(kind: nat, rights: set<nat>, target: nat, handle: nat)
    | Revoke(handle: nat, done: bool)

  ghost predicate Step(t: Table, op: Op, t': Table)
    requires WellFormed(t)
  {
    WellFormed(t') && match op
    case Grant(kind, rights, target, handle) => Granted(t, t', kind, rights, target, handle)
    case Revoke(handle, done) => Revoked(t, t', handle, done)
  }

  /** A run of grants and revocations, with the table before and after each. */
  ghost predicate Run(ts: seq<Table>, ops: seq<Op>) {
    && |ts| == |ops| + 1 && (forall i :: 0 <= i < |ts| ==> WellFormed(ts[i]))
    && forall i :: 0 <= i < |ops| ==> Step(ts[i], ops[i], ts[i + 1])
  }

  /** The successful revocations of one slot in a run. */
  ghost function Revocations(ts: seq<Table>, ops: seq<Op>, slot: nat): nat
    requires Run(ts, ops)
    decreases |ops|
  {
    if ops == [] then 0
    else
      var n := |ops| - 1;
      RunPrefix(ts, ops);
      Revocations(ts[..n + 1], ops[..n], slot) +
      if ops[n].Revoke? && ops[n].done && Revokes(ts[n], ops[n].handle, slot) then 1 else 0
  }

  lemma RunPrefix(ts: seq<Table>, ops: seq<Op>)
    requires Run(ts, ops) && ops != []
    ensures Run(ts[..|ops|], ops[..|ops| - 1])
  {}

  /** Two slots never have the same handle. */
  lemma OneSlot(t: Table, handle: nat, a: nat, b: nat)
    requires WellFormed(t) && Revokes(t, handle, a) && b < SLOTS && handle == MakeHandle(b, t.entries[b])
    ensures a == b
  {
    HandleFields(a, t.entries[a]);
    HandleFields(b, t.entries[b]);
  }

  lemma StepGeneration(t: Table, op: Op, t': Table, slot: nat)
    requires WellFormed(t) && Step(t, op, t') && slot < SLOTS
    ensures t'.entries[slot].generation ==
      if op.Revoke? && op.done && Revokes(t, op.handle, slot) then Next(t.entries[slot].generation)
      else t.entries[slot].generation
  {}

  lemma {:induction false} RunGeneration(ts: seq<Table>, ops: seq<Op>, slot: nat)
    requires Run(ts, ops) && slot < SLOTS
    ensures ts[|ops|].entries[slot].generation == Advance(ts[0].entries[slot].generation, Revocations(ts, ops, slot))
    decreases |ops|
  {
    if ops != [] {
      var n := |ops| - 1;
      RunPrefix(ts, ops);
      RunGeneration(ts[..n + 1], ops[..n], slot);
      StepGeneration(ts[n], ops[n], ts[n + 1], slot);
    }
  }

  /**
  A handle of the table at the start of a run resolves at its end, whatever kind and rights are
  asked for, only if the number of times its slot was revoked in between is a multiple of 2^32 - 1.
  So a revoked handle is dead until the generation wraps, however its slot is reused.
  */
  lemma StaleHandle(ts: seq<Table>, ops: seq<Op>, slot: nat, kind: nat, rights: set<nat>, at: nat)
    requires Run(ts, ops) && slot < SLOTS
    requires Names(ts[|ops|], MakeHandle(slot, ts[0].entries[slot]), at, kind, rights)
    ensures at == slot && Revocations(ts, ops, slot) % 0xFFFF_FFFF == 0
  {
    HandleFields(slot, ts[0].entries[slot]);
    HandleFields(at, ts[|ops|].entries[at]);
    RunGeneration(ts, ops, slot);
    Recurs(ts[0].entries[slot].generation, Revocations(ts, ops, slot));
  }

  /** A lookup is answered by an empty slot exactly when it asks for kind NONE, and then it asks for no right. */
  lemma GrantedOnly(t: Table, h: nat, slot: nat, kind: nat, rights: set<nat>)
    requires WellFormed(t) && Resolves(t, h, slot, kind, rights)
    ensures t.entries[slot].kind == NONE <==> kind == NONE
    ensures kind == NONE ==> rights == {} && t.entries[slot].target == 0
    ensures kind != NONE ==> rights <= AllowedRights(kind)
  {}

  /** Some lookup is answered by a slot that no grant filled. */
  ghost predicate EmptyAnswers(t: Table, kind: nat, rights: set<nat>)
    requires WellFormed(t)
  {
    exists h: nat, slot: nat :: Resolves(t, h, slot, kind, rights) && t.entries[slot].kind == NONE
  }

  /**
  Not every capability that a handle resolves to was granted: a table of a process with an empty slot answers
  a request for kind NONE without rights. That is the only such request.
  */
  lemma EmptySlotResolves(t: Table, kind: nat, rights: set<nat>)
    requires WellFormed(t)
    ensures EmptyAnswers(t, kind, rights) <==> t.principal != 0 && !Full(t) && kind == NONE && rights == {}
  {
    if t.principal != 0 && !Full(t) && kind == NONE && rights == {} {
      var slot: nat :| slot < SLOTS && t.entries[slot].kind == NONE;
      assert Resolves(t, MakeHandle(slot, t.entries[slot]), slot, kind, rights);
    }
  }
}
