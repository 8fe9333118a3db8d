/** Which process slot holds which endpoint: no endpoint is lost or shared. */
module Owners {
  import opened Common
  import opened Ipc

  /** Slot `k` of the endpoint table is open for `pid` under handle `h`. */
  ghost predicate HeldAt(es: seq<Endpoint>, h: nat, pid: nat, k: nat)
    requires WellFormed(es)
  {
    Open(es, h, k) && es[k].receiver == pid
  }

  ghost predicate Held(es: seq<Endpoint>, h: nat, pid: nat)
    requires WellFormed(es)
  {
    exists k: nat :: HeldAt(es, h, pid, k)
  }

  /** Every handle but 0 is open for its holder, and no two holders have the same one. */
  ghost predicate Linked(es: seq<Endpoint>, hs: seq<nat>, pids: seq<nat>)
    requires WellFormed(es) && |pids| == |hs|
  {
    && (forall i :: 0 <= i < |hs| && hs[i] != 0 ==> Held(es, hs[i], pids[i]))
    && forall i, j :: 0 <= i < |hs| && 0 <= j < |hs| && i != j && hs[i] != 0 ==> hs[i] != hs[j]
  }

  /** An open endpoint that no holder has. */
  ghost predicate Stray(es: seq<Endpoint>, hs: seq<nat>, k: nat)
    requires WellFormed(es)
  {
    k < ENDPOINTS && es[k].used && MakeHandle(k, es[k].generation) !in hs
  }

  /** Neither were endpoints lost nor did any that nobody holds change hands. */
  ghost predicate SameStrays(es: seq<Endpoint>, hs: seq<nat>, es': seq<Endpoint>, hs': seq<nat>)
    requires WellFormed(es) && WellFormed(es')
  {
    forall k: nat :: k < ENDPOINTS ==>
      (Stray(es, hs, k) <==> Stray(es', hs', k)) && (Stray(es, hs, k) ==> SameEnd(es[k], es'[k]))
  }

  /** The same endpoint, perhaps with other messages. */
  predicate SameEnd(e: Endpoint, e': Endpoint) {
    e'.used == e.used && (e.used ==> e'.generation == e.generation && e'.receiver == e.receiver)
  }

  lemma SameStraysTrans(
    es: seq<Endpoint>, hs: seq<nat>, es1: seq<Endpoint>, hs1: seq<nat>, es2: seq<Endpoint>, hs2: seq<nat>)
    requires WellFormed(es) && WellFormed(es1) && WellFormed(es2)
    requires SameStrays(es, hs, es1, hs1) && SameStrays(es1, hs1, es2, hs2)
    ensures SameStrays(es, hs, es2, hs2)
  {
    forall k: nat | k < ENDPOINTS
      ensures (Stray(es, hs, k) <==> Stray(es2, hs2, k)) && (Stray(es, hs, k) ==> SameEnd(es[k], es2[k]))
    {
      assert Stray(es, hs, k) <==> Stray(es1, hs1, k);
    }
  }

  /** Messages may come and go, and unused slots may differ. */
  lemma Unmoved(es: seq<Endpoint>, es': seq<Endpoint>, hs: seq<nat>, pids: seq<nat>)
    requires WellFormed(es) && WellFormed(es') && |pids| == |hs| && Linked(es, hs, pids)
    requires forall k :: 0 <= k < ENDPOINTS ==> SameEnd(es[k], es'[k])
    ensures Linked(es', hs, pids) && SameStrays(es, hs, es', hs)
  {
    forall i | 0 <= i < |hs| && hs[i] != 0 ensures Held(es', hs[i], pids[i]) {
      var k: nat :| HeldAt(es, hs[i], pids[i], k);
      assert HeldAt(es', hs[i], pids[i], k);
    }
  }

  /** A holder without an endpoint gets a new one. */
  lemma Gained(es: seq<Endpoint>, es': seq<Endpoint>, hs: seq<nat>, pids: seq<nat>, i: nat, pid: nat, h: nat)
    requires WellFormed(es) && WellFormed(es') && |pids| == |hs| && Linked(es, hs, pids) && i < |hs| && hs[i] == 0
    requires Created(es, es', pid, h) && h != 0
    ensures Linked(es', hs[i := h], pids[i := pid]) && SameStrays(es, hs, es', hs[i := h])
  {
    var s: nat :| CreatedAt(es, es', pid, h, s);
    var hs', pids' := hs[i := h], pids[i := pid];
    assert HeldAt(es', h, pid, s);
    forall j | 0 <= j < |hs| && j != i && hs[j] != 0 ensures Held(es', hs[j], pids[j]) && hs[j] != h {
      var k: nat :| HeldAt(es, hs[j], pids[j], k);
      assert k != s && HeldAt(es', hs[j], pids[j], k);
      Handles(k, es[k].generation, s, es'[s].generation);
    }
    forall k: nat | k < ENDPOINTS
      ensures (Stray(es, hs, k) <==> Stray(es', hs', k)) && (Stray(es, hs, k) ==> SameEnd(es[k], es'[k]))
    {
      if k != s {
        Handles(k, es[k].generation, s, es'[s].generation);
        Others(hs, i, h, MakeHandle(k, es[k].generation));
      } else {
        assert hs'[i] == h;
      }
    }
  }

  /** A holder gives its endpoint up. */
  lemma Dropped(es: seq<Endpoint>, es': seq<Endpoint>, hs: seq<nat>, pids: seq<nat>, i: nat, pid: nat)
    requires WellFormed(es) && WellFormed(es') && |pids| == |hs| && Linked(es, hs, pids) && i < |hs| && hs[i] != 0
    requires Closed(es, es', hs[i])
    ensures Linked(es', hs[i := 0], pids[i := pid]) && SameStrays(es, hs, es', hs[i := 0]) && !IsOpen(es', hs[i])
  {
    var h := hs[i];
    assert Held(es, h, pids[i]);
    var s: nat :| HeldAt(es, h, pids[i], s);
    assert Open(es, h, s);
    var hs' := hs[i := 0];
    forall j | 0 <= j < |hs| && j != i && hs[j] != 0 ensures Held(es', hs[j], pids[j]) {
      var k: nat :| HeldAt(es, hs[j], pids[j], k);
      assert k != s && HeldAt(es', hs[j], pids[j], k);
    }
    forall k: nat | k < ENDPOINTS
      ensures (Stray(es, hs, k) <==> Stray(es', hs', k)) && (Stray(es, hs, k) ==> SameEnd(es[k], es'[k]))
    {
      if k != s {
        Handles(k, es[k].generation, s, es[s].generation);
        Others(hs, i, 0, MakeHandle(k, es[k].generation));
      } else {
        assert hs[i] == h;
      }
    }
    forall k: nat ensures !Open(es', h, k) {
      if k < ENDPOINTS && k != s { Handles(k, es'[k].generation, s, es[s].generation); }
    }
  }

  /** An endpoint that was given up is unused. */
  lemma Unused(es: seq<Endpoint>, es': seq<Endpoint>, hs: seq<nat>, pids: seq<nat>, i: nat)
    requires WellFormed(es) && |pids| == |hs| && Linked(es, hs, pids) && i < |hs| && hs[i] != 0
    requires Closed(es, es', hs[i])
    ensures SomeUnused(es')
  {
    assert Held(es, hs[i], pids[i]);
    var s: nat :| HeldAt(es, hs[i], pids[i], s);
    assert Open(es, hs[i], s);
    assert !es'[s].used;
  }

  /** The process of a holder without an endpoint does not matter. */
  lemma Repid(es: seq<Endpoint>, hs: seq<nat>, pids: seq<nat>, i: nat, pid: nat)
    requires WellFormed(es) && |pids| == |hs| && Linked(es, hs, pids) && i < |hs| && hs[i] == 0
    ensures Linked(es, hs[i := 0], pids[i := pid]) && hs[i := 0] == hs
  {}

  /** Different slots never have the same handle. */
  lemma Handles(a: nat, g: nat, b: nat, g': nat)
    requires a < ENDPOINTS && b < ENDPOINTS && a != b
    ensures MakeHandle(a, g) != MakeHandle(b, g')
  {}

  lemma Others(hs: seq<nat>, i: nat, x: nat, h: nat)
    requires i < |hs| && h != x && h != hs[i]
    ensures h in hs[i := x] <==> h in hs
  {
    if h in hs {
      var j :| 0 <= j < |hs| && hs[j] == h;
      assert hs[i := x][j] == h;
    }
  }

  lemma SentSame(es: seq<Endpoint>, es': seq<Endpoint>, h: nat, sender: nat, data: seq<Byte>, done: bool)
    requires WellFormed(es) && Sent(es, es', h, sender, data, done)
    ensures |es'| == |es| && forall k :: 0 <= k < ENDPOINTS ==> SameEnd(es[k], es'[k])
  {}

  lemma ReceivedSame(es: seq<Endpoint>, es': seq<Endpoint>, h: nat, pid: nat, capacity: nat, done: bool, m: Message)
    requires WellFormed(es) && Received(es, es', h, pid, capacity, done, m)
    ensures |es'| == |es| && forall k :: 0 <= k < ENDPOINTS ==> SameEnd(es[k], es'[k])
  {
    if done {
      var s: nat :| Receivable(es, h, pid, capacity, s);
      assert Open(es, h, s);
    }
  }
}
