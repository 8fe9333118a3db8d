/** IPC endpoints: generation-checked handles to bounded message queues. */
module Ipc {
  import opened Common
  import opened Generations
  import opened Rings

  const ENDPOINTS: nat := 8
  const CAPACITY: nat := 8
  const MESSAGE_MAX: nat := 64

  datatype Message = Message(sender: nat, data: seq<Byte>)

  datatype Endpoint = Endpoint(
    receiver: nat, generation: nat, head: nat, tail: nat, count: nat, used: bool, messages: seq<Message>)

  const NO_MESSAGE := Message(0, [])
  const EMPTY_RING := [NO_MESSAGE, NO_MESSAGE, NO_MESSAGE, NO_MESSAGE, NO_MESSAGE, NO_MESSAGE, NO_MESSAGE, NO_MESSAGE]

  predicate Good(e: Endpoint) {
    && |e.messages| == 8 && e.tail < 8 && e.count <= 8 && e.head == Along(e.tail, e.count, 8)
    && e.generation < 0x1_0000_0000 && (e.used ==> IsGeneration(e.generation))
  }

  predicate WellFormed(es: seq<Endpoint>) {
    |es| == ENDPOINTS && forall s :: 0 <= s < |es| ==> Good(es[s])
  }

  /** The queued messages, oldest first. */
  function Queue(e: Endpoint): (q: seq<Message>)
    requires Good(e)
    ensures |q| == e.count
  {
    Entries(e.messages, e.tail, e.count)
  }

  function MakeHandle(slot: nat, generation: nat): nat {
    0x4950 * 0x1_0000_0000_0000 + generation * 0x100 + slot + 1
  }

  lemma HandleFields(slot: nat, generation: nat)
    requires slot < ENDPOINTS && generation < 0x1_0000_0000
    ensures var h := MakeHandle(slot, generation);
      h / 0x1_0000_0000_0000 == 0x4950 && h % 256 == slot + 1 && h / 0x100 % 0x1_0000_0000 == generation
  {}

  /** The endpoint in `slot` is open under handle `h`. */
  predicate Open(es: seq<Endpoint>, h: nat, slot: nat)
    requires WellFormed(es)
  {
    slot < ENDPOINTS && es[slot].used && h == MakeHandle(slot, es[slot].generation)
  }

  lemma OneSlot(es: seq<Endpoint>, h: nat, a: nat, b: nat)
    requires WellFormed(es) && Open(es, h, a) && Open(es, h, b)
    ensures a == b
  {}

  function Pushed(e: Endpoint, m: Message): (r: Endpoint)
    requires Good(e) && e.count < 8
    ensures Good(r) && Queue(r) == Queue(e) + [m]
  {
    Push(e.messages, e.tail, e.count, m);
    e.(messages := e.messages[e.head := m], head := After(e.head, 8), count := e.count + 1)
  }

  function Popped(e: Endpoint): (r: Endpoint)
    requires Good(e) && e.count > 0
    ensures Good(r) && Queue(e) == [e.messages[e.tail]] + Queue(r)
  {
    Pop(e.messages, e.tail, e.count);
    e.(tail := After(e.tail, 8), count := e.count - 1)
  }

  // ------------------------------------------------------------------ operations

  datatype Op =
    | Create(pid: nat, handle: nat)
    | Destroy(handle: nat, done: bool)
    | Send(handle: nat, sender: nat, data: seq<Byte>, done: bool)
    | Receive(handle: nat, pid: nat, capacity: nat, done: bool, message: Message)

  ghost predicate IsOpen(es: seq<Endpoint>, h: nat)
    requires WellFormed(es)
  {
    exists s: nat :: Open(es, h, s)
  }

  ghost predicate CreatedAt(es: seq<Endpoint>, es': seq<Endpoint>, pid: nat, handle: nat, s: nat)
    requires WellFormed(es)
  {
    && s < ENDPOINTS && !es[s].used && (forall i :: 0 <= i < s ==> es[i].used)
    && var g := if es[s].generation != 0 then es[s].generation else 1;
       es' == es[s := Endpoint(pid, g, 0, 0, 0, true, EMPTY_RING)] && handle == MakeHandle(s, g)
  }

  ghost predicate Created(es: seq<Endpoint>, es': seq<Endpoint>, pid: nat, handle: nat)
    requires WellFormed(es)
  {
    if handle == 0 then es' == es && (pid == 0 || forall i :: 0 <= i < ENDPOINTS ==> es[i].used)
    else pid != 0 && exists s: nat :: CreatedAt(es, es', pid, handle, s)
  }

  ghost predicate SomeUnused(es: seq<Endpoint>) { exists i :: 0 <= i < |es| && !es[i].used }

  ghost predicate Destroyed(es: seq<Endpoint>, es': seq<Endpoint>, handle: nat, done: bool)
    requires WellFormed(es)
  {
    && done == IsOpen(es, handle) && (!done ==> es' == es)
    && forall s: nat :: done && Open(es, handle, s) ==>
         es' == es[s := Endpoint(0, Next(es[s].generation), 0, 0, 0, false, EMPTY_RING)]
  }

  ghost predicate Closed(es: seq<Endpoint>, es': seq<Endpoint>, handle: nat)
    requires WellFormed(es)
  {
    Destroyed(es, es', handle, IsOpen(es, handle))
  }

  /** The same endpoints are in use, with the same contents; unused slots may differ in generation. */
  ghost predicate SameInUse(es: seq<Endpoint>, es': seq<Endpoint>) {
    |es'| == |es| && forall s :: 0 <= s < |es| ==> es'[s] == es[s] || (!es'[s].used && !es[s].used)
  }

  lemma HandleBound(es: seq<Endpoint>, es': seq<Endpoint>, pid: nat, handle: nat)
    requires WellFormed(es) && Created(es, es', pid, handle)
    ensures handle < 0x1_0000_0000_0000_0000
  {}

  /** Creating an endpoint and destroying it again restores the endpoints in use. */
  lemma CreateDestroy(es: seq<Endpoint>, es1: seq<Endpoint>, es2: seq<Endpoint>, pid: nat, handle: nat)
    requires WellFormed(es) && WellFormed(es1) && Created(es, es1, pid, handle)
    requires handle != 0 && Closed(es1, es2, handle)
    ensures SameInUse(es, es2)
  {
    var s: nat :| CreatedAt(es, es1, pid, handle, s);
    assert Open(es1, handle, s);
  }

  ghost predicate Sent(es: seq<Endpoint>, es': seq<Endpoint>, handle: nat, sender: nat, data: seq<Byte>, done: bool)
    requires WellFormed(es)
  {
    && (done <==>
          && sender != 0 && 0 < |data| <= MESSAGE_MAX
          && exists s: nat :: Open(es, handle, s) && es[s].count < CAPACITY)
    && (!done ==> es' == es)
    && forall s: nat :: done && Open(es, handle, s) ==>
      es[s].count < CAPACITY && es' == es[s := Pushed(es[s], Message(sender, data))]
  }

  /** The endpoint in slot `s` is open under a handle for its receiver, with a message waiting. */
  ghost predicate Pending(es: seq<Endpoint>, handle: nat, pid: nat, s: nat)
    requires WellFormed(es)
  {
    Open(es, handle, s) && es[s].receiver == pid && es[s].count > 0
  }

  /** The message that waits first. */
  ghost function Front(es: seq<Endpoint>, handle: nat, pid: nat): Option<Message>
    requires WellFormed(es)
  {
    if s: nat :| Pending(es, handle, pid, s) then Some(Queue(es[s])[0]) else None
  }

  lemma FrontIs(es: seq<Endpoint>, handle: nat, pid: nat, s: nat)
    requires WellFormed(es) && Pending(es, handle, pid, s)
    ensures Front(es, handle, pid) == Some(Queue(es[s])[0])
  {
    forall t: nat | Pending(es, handle, pid, t) ensures t == s { OneSlot(es, handle, s, t); }
  }

  ghost predicate Receivable(es: seq<Endpoint>, handle: nat, pid: nat, capacity: nat, s: nat)
    requires WellFormed(es)
  {
    Pending(es, handle, pid, s) && |Queue(es[s])[0].data| <= capacity
  }

  /** What fits is what waits first. */
  lemma ReceivedFront(es: seq<Endpoint>, es': seq<Endpoint>, handle: nat, pid: nat, capacity: nat, done: bool,
      m: Message)
    requires WellFormed(es) && Received(es, es', handle, pid, capacity, done, m)
    ensures done <==> Front(es, handle, pid).Some? && |Front(es, handle, pid).value.data| <= capacity
    ensures done ==> Front(es, handle, pid) == Some(m)
  {
    forall s: nat | Pending(es, handle, pid, s) ensures Front(es, handle, pid) == Some(Queue(es[s])[0]) {
      FrontIs(es, handle, pid, s);
    }
    if Front(es, handle, pid).Some? {
      var s: nat :| Pending(es, handle, pid, s);
      if |Queue(es[s])[0].data| <= capacity { assert Receivable(es, handle, pid, capacity, s); }
    }
  }

  ghost predicate Received(es: seq<Endpoint>, es': seq<Endpoint>, handle: nat, pid: nat, capacity: nat, done: bool,
      m: Message)
    requires WellFormed(es)
  {
    && (done <==> exists s: nat :: Receivable(es, handle, pid, capacity, s))
    && (!done ==> es' == es)
    && forall s: nat :: done && Open(es, handle, s) ==>
         es[s].count > 0 && m == Queue(es[s])[0] && es' == es[s := Popped(es[s])]
  }

  class Endpoints {
    var slots: seq<Endpoint>

    ghost predicate Valid()
      reads this
    {
      WellFormed(slots)
    }

    constructor ()
      ensures Valid() && forall s :: 0 <= s < ENDPOINTS ==> !slots[s].used
    {
      slots := seq(8, s requires 0 <= s < 8 => Endpoint(0, InitialGeneration(s), 0, 0, 0, false, EMPTY_RING));
    }

    /** The slot of an open handle; ENDPOINTS when the handle is not open. */
    method Find(handle: nat) returns (slot: nat)
      requires Valid() && handle < 0x1_0000_0000_0000_0000
      ensures slot < ENDPOINTS ==> Open(slots, handle, slot)
      ensures slot >= ENDPOINTS ==> !IsOpen(slots, handle)
    {
      forall s: nat | s < ENDPOINTS { HandleFields(s, slots[s].generation); }
      if handle == 0 || handle / 0x1_0000_0000_0000 != 0x4950 { return ENDPOINTS; }
      var encodedSlot := handle % 256;
      if encodedSlot == 0 || encodedSlot > ENDPOINTS { return ENDPOINTS; }
      slot := encodedSlot - 1;
      if !slots[slot].used || MakeHandle(slot, slots[slot].generation) != handle { return ENDPOINTS; }
    }

    method Create(pid: nat) returns (handle: nat)
      requires Valid()
      modifies this
      ensures Valid() && Created(old(slots), slots, pid, handle)
    {
      if pid == 0 { return 0; }
      for s := 0 to ENDPOINTS
        invariant slots == old(slots) && forall i :: 0 <= i < s ==> slots[i].used
      {
        if !slots[s].used {
          var g := if slots[s].generation != 0 then slots[s].generation else 1;
          slots := slots[s := Endpoint(pid, g, 0, 0, 0, true, EMPTY_RING)];
          handle := MakeHandle(s, g);
          assert CreatedAt(old(slots), slots, pid, handle, s);
          return;
        }
      }
      return 0;
    }

    method Destroy(handle: nat) returns (done: bool)
      requires Valid() && handle < 0x1_0000_0000_0000_0000
      modifies this
      ensures Valid() && Destroyed(old(slots), slots, handle, done)
    {
      var s := Find(handle);
      if s >= ENDPOINTS { return false; }
      forall t: nat | Open(slots, handle, t) ensures t == s { OneSlot(slots, handle, s, t); }
      slots := slots[s := Endpoint(0, Next(slots[s].generation), 0, 0, 0, false, EMPTY_RING)];
      return true;
    }

    method Send(handle: nat, sender: nat, data: seq<Byte>) returns (done: bool)
      requires Valid() && handle < 0x1_0000_0000_0000_0000
      modifies this
      ensures Valid() && Sent(old(slots), slots, handle, sender, data, done)
    {
      var s := Find(handle);
      if s >= ENDPOINTS { return false; }
      forall t: nat | Open(slots, handle, t) ensures t == s { OneSlot(slots, handle, s, t); }
      if sender == 0 || data == [] || |data| > MESSAGE_MAX || slots[s].count == CAPACITY { return false; }
      slots := slots[s := Pushed(slots[s], Message(sender, data))];
      return true;
    }

    /** ipc_pending, with the first of the messages it counts. */
    method Peek(handle: nat, pid: nat) returns (m: Option<Message>)
      requires Valid() && handle < 0x1_0000_0000_0000_0000
      ensures m == Front(slots, handle, pid)
    {
      var s := Find(handle);
      if s >= ENDPOINTS { return None; }
      forall t: nat | Open(slots, handle, t) ensures t == s { OneSlot(slots, handle, s, t); }
      var e := slots[s];
      if e.receiver != pid || e.count == 0 { return None; }
      FrontIs(slots, handle, pid, s);
      return Some(e.messages[e.tail]);
    }

    method Receive(handle: nat, pid: nat, capacity: nat) returns (done: bool, m: Message)
      requires Valid() && handle < 0x1_0000_0000_0000_0000
      modifies this
      ensures Valid() && Received(old(slots), slots, handle, pid, capacity, done, m)
    {
      m := NO_MESSAGE;
      var s := Find(handle);
      if s >= ENDPOINTS { return false, m; }
      forall t: nat | Open(slots, handle, t) ensures t == s { OneSlot(slots, handle, s, t); }
      var e := slots[s];
      if e.receiver != pid || e.count == 0 { return false, m; }
      assert Queue(e)[0] == e.messages[e.tail];
      if capacity < |e.messages[e.tail].data| { return false, m; }
      m := e.messages[e.tail];
      assert Receivable(slots, handle, pid, capacity, s);
      slots := slots[s := Popped(e)];
      return true, m;
    }
  }

  /** The start of a slot's generation. */
  function InitialGeneration(slot: nat): (g: nat)
    requires slot < ENDPOINTS
    ensures g < 0x1_0000_0000
  {
    (0x4950_0001 ^ ((slot as bv32 + 1) * 0x9E37_79B9)) as nat
  }

  // ------------------------------------------------------------------------ runs

  ghost predicate Step(es: seq<Endpoint>, op: Op, es': seq<Endpoint>)
    requires WellFormed(es)
  {
    WellFormed(es') && match op
    case Create(pid, handle) => Created(es, es', pid, handle)
    case Destroy(handle, done) => Destroyed(es, es', handle, done)
    case Send(handle, sender, data, done) => Sent(es, es', handle, sender, data, done)
    case Receive(handle, pid, capacity, done, m) => Received(es, es', handle, pid, capacity, done, m)
  }

  ghost predicate Run(ts: seq<seq<Endpoint>>, ops: seq<Op>) {
    && |ts| == |ops| + 1 && (forall i :: 0 <= i < |ts| ==> WellFormed(ts[i]))
    && forall i :: 0 <= i < |ops| ==> Step(ts[i], ops[i], ts[i + 1])
  }

  lemma RunPrefix(ts: seq<seq<Endpoint>>, ops: seq<Op>)
    requires Run(ts, ops) && ops != []
    ensures Run(ts[..|ops|], ops[..|ops| - 1])
  {}

  /** What one operation puts into and takes out of the queue of `h`. */
  function In(op: Op, h: nat): seq<Message> {
    if op.Send? && op.done && op.handle == h then [Message(op.sender, op.data)] else []
  }

  function Out(op: Op, h: nat): seq<Message> {
    if op.Receive? && op.done && op.handle == h then [op.message] else []
  }

  function AllIn(ops: seq<Op>, h: nat): seq<Message> {
    if ops == [] then [] else AllIn(ops[..|ops| - 1], h) + In(ops[|ops| - 1], h)
  }

  function AllOut(ops: seq<Op>, h: nat): seq<Message> {
    if ops == [] then [] else AllOut(ops[..|ops| - 1], h) + Out(ops[|ops| - 1], h)
  }

  /** How often the endpoint in a slot was destroyed. */
  ghost function Destructions(ts: seq<seq<Endpoint>>, ops: seq<Op>, slot: nat): nat
    requires Run(ts, ops)
    decreases |ops|
  {
    if ops == [] then 0
    else
      var n := |ops| - 1;
      RunPrefix(ts, ops);
      Destructions(ts[..n + 1], ops[..n], slot) +
      if Gone(ts[n], ops[n], slot) then 1 else 0
  }

  predicate Gone(es: seq<Endpoint>, op: Op, slot: nat)
    requires WellFormed(es)
  {
    op.Destroy? && op.done && Open(es, op.handle, slot)
  }

  predicate Passed(e: Endpoint, op: Op, e': Endpoint, h: nat)
    requires Good(e) && Good(e')
  {
    Queue(e) + In(op, h) == Out(op, h) + Queue(e')
  }

  /** One step of an open endpoint: destroyed, or its queue takes in and gives out. */
  lemma StepSlot(es: seq<Endpoint>, op: Op, es': seq<Endpoint>, slot: nat)
    requires WellFormed(es) && Step(es, op, es') && slot < ENDPOINTS && IsGeneration(es[slot].generation)
    ensures es'[slot].generation == if Gone(es, op, slot) then Next(es[slot].generation) else es[slot].generation
    ensures es[slot].used && !Gone(es, op, slot) ==>
      es'[slot].used && Passed(es[slot], op, es'[slot], MakeHandle(slot, es[slot].generation))
  {}

  lemma {:induction false} RunGeneration(ts: seq<seq<Endpoint>>, ops: seq<Op>, slot: nat)
    requires Run(ts, ops) && slot < ENDPOINTS && IsGeneration(ts[0][slot].generation)
    ensures IsGeneration(ts[|ops|][slot].generation)
    ensures ts[|ops|][slot].generation == Advance(ts[0][slot].generation, Destructions(ts, ops, slot))
    decreases |ops|
  {
    if ops != [] {
      var n := |ops| - 1;
      RunPrefix(ts, ops);
      RunGeneration(ts[..n + 1], ops[..n], slot);
      StepSlot(ts[n], ops[n], ts[n + 1], slot);
      Recurs(ts[0][slot].generation, Destructions(ts, ops, slot));
    }
  }

  /**
  A handle open at the start of a run is open at its end only after a multiple of 2^32 - 1 destructions of its
  slot.
  */
  lemma StaleHandle(ts: seq<seq<Endpoint>>, ops: seq<Op>, slot: nat, h: nat, at: nat)
    requires Run(ts, ops) && Open(ts[0], h, slot) && Open(ts[|ops|], h, at)
    ensures at == slot && Destructions(ts, ops, slot) % 0xFFFF_FFFF == 0
  {
    HandleFields(slot, ts[0][slot].generation);
    HandleFields(at, ts[|ops|][at].generation);
    RunGeneration(ts, ops, slot);
    Recurs(ts[0][slot].generation, Destructions(ts, ops, slot));
  }

  /**
  As long as an endpoint is not destroyed it is an exact queue: what was queued at the start followed
  by what was accepted is what was received followed by what is still queued.
  */
  lemma {:induction false} Fifo(ts: seq<seq<Endpoint>>, ops: seq<Op>, slot: nat, h: nat)
    requires Run(ts, ops) && Open(ts[0], h, slot) && Destructions(ts, ops, slot) == 0
    ensures Open(ts[|ops|], h, slot)
    ensures Queue(ts[0][slot]) + AllIn(ops, h) == AllOut(ops, h) + Queue(ts[|ops|][slot])
    decreases |ops|
  {
    if ops != [] {
      var n := |ops| - 1;
      RunPrefix(ts, ops);
      Fifo(ts[..n + 1], ops[..n], slot, h);
      StepSlot(ts[n], ops[n], ts[n + 1], slot);
      FifoStep(Queue(ts[0][slot]), AllIn(ops[..n], h), In(ops[n], h), AllOut(ops[..n], h), Out(ops[n], h),
        Queue(ts[n][slot]), Queue(ts[n + 1][slot]));
    }
  }

  lemma FifoStep(q0: seq<Message>, ins: seq<Message>, i: seq<Message>, outs: seq<Message>, o: seq<Message>,
      q: seq<Message>, q': seq<Message>)
    requires q0 + ins == outs + q && q + i == o + q'
    ensures q0 + (ins + i) == (outs + o) + q'
  {
    calc {
      q0 + (ins + i);
      (q0 + ins) + i;
      (outs + q) + i;
      outs + (q + i);
      outs + (o + q');
      (outs + o) + q';
    }
  }
}
