/**
The process state machine: dispatch, system calls and interrupts of an arbitrary user program,
blocking waits with deadlines, the input ring of an application and round-robin selection.
*/
module Scheduling {
  import opened Common
  import opened Rings
  import Capabilities

  const SLOTS: nat := 8
  const FIRST_APP: nat := 2
  const FOREVER: nat := 0xFFFF_FFFF_FFFF_FFFF
  const TIMER: nat := 0x40

  datatype State = Unused | Ready | Running | Blocked | Exited | Faulted

  datatype Process = Process(
    state: State, appId: nat, capabilities: Capabilities.Table, surface: nat, active: bool,
    input: seq<nat>, head: nat, tail: nat, deadline: nat, presentValid: bool, sequence: nat,
    exitStatus: nat, faultVector: nat)

  function NoKeys(): (r: seq<nat>)
    ensures |r| == 32
  {
    seq(32, i => 0)
  }

  function NoCapabilities(): (t: Capabilities.Table)
    ensures Capabilities.WellFormed(t)
  {
    Capabilities.Table(0, seq(Capabilities.SLOTS, i => Capabilities.Entry(0, 1, Capabilities.NONE, {})))
  }

  /** A slot whose program has not run yet. */
  function Fresh(state: State, appId: nat, capabilities: Capabilities.Table, surface: nat): Process {
    Process(state, appId, capabilities, surface, false, NoKeys(), 0, 0, 0, false, 0, 0, 0)
  }

  function Empty(): Process { Fresh(Unused, 0, NoCapabilities(), 0) }

  /** A blocked process is an application with nothing in its ring; only applications that presented are active. */
  predicate Fine(p: Process) {
    && |p.input| == 32 && p.head < 32 && p.tail < 32 && (p.state.Blocked? ==> p.head == p.tail && p.appId != 0)
    && (p.active ==> p.presentValid) && Capabilities.WellFormed(p.capabilities)
  }

  /** The keys waiting in a process's ring, oldest first. */
  function Keys(p: Process): seq<nat>
    requires Fine(p)
  {
    Between(p.input, p.head, p.tail)
  }

  /** What a user program can make happen, with the answers it gets from the rest of the kernel. */
  datatype Event =
    | Yield
    | Exit(status: nat)
    | Poll(handle: nat)
    | Present(handle: nat, proper: bool, sequence: nat)
    | Wait(handle: nat, deadline: nat, now: nat)
    | OtherCall
    | Interrupt(vector: nat)

  datatype Action = Return | Yielded | Ended | Waiting | Preempted | Fault

  predicate Expired(p: Process, now: nat) { p.deadline != FOREVER && p.deadline <= now }

  /** process_capability: an application's handle resolves to a capability for the expected object. */
  predicate Authorized(p: Process, handle: nat, kind: nat, right: nat, expected: nat)
    requires Fine(p)
  {
    && p.appId != 0
    && exists slot: nat ::
         slot < Capabilities.SLOTS && Capabilities.Resolves(p.capabilities, handle, slot, kind, {right}) &&
         (expected != FOREVER ==> p.capabilities.entries[slot].target == expected)
  }

  /** The combinations dispatch_process accepts. */
  predicate Matches(action: Action, state: State) {
    || (action.Yielded? && state.Ready?) || (action.Ended? && state.Exited?) || (action.Waiting? && state.Blocked?)
    || (action.Preempted? && state.Ready?) || (action.Fault? && state.Faulted?)
  }

  predicate MayPoll(p: Process, handle: nat)
    requires Fine(p)
  {
    Authorized(p, handle, Capabilities.INPUT, Capabilities.READ, p.appId)
  }

  predicate MayWait(p: Process, handle: nat)
    requires Fine(p)
  {
    Authorized(p, handle, Capabilities.INPUT, Capabilities.WAIT, p.appId)
  }

  predicate MayPresent(p: Process, handle: nat)
    requires Fine(p)
  {
    Authorized(p, handle, Capabilities.SURFACE, Capabilities.PRESENT, p.surface)
  }

  /** What one event does to the running process, and whether its turn goes on. */
  function Turn(p: Process, e: Event, preemption: bool): (r: (Process, Action))
    requires Fine(p)
    ensures Fine(r.0)
  {
    match e
    case Yield => (p.(state := Ready), Yielded)
    case Exit(status) => (p.(state := Exited, exitStatus := status, active := false), Ended)
    case Poll(handle) => (if MayPoll(p, handle) && p.head != p.tail then p.(tail := After(p.tail, 32)) else p, Return)
    case Present(handle, proper, sequence) =>
      if MayPresent(p, handle) && proper && sequence > (if p.presentValid then p.sequence else 0)
      then (p.(sequence := sequence, presentValid := true), Return) else (p, Return)
    case Wait(handle, deadline, now) =>
      if MayWait(p, handle) && p.head == p.tail && (deadline == FOREVER || now < deadline)
      then (p.(deadline := deadline, state := Blocked), Waiting) else (p, Return)
    case OtherCall => (p, Return)
    case Interrupt(vector) =>
      if vector < 32 then (p.(faultVector := vector, state := Faulted, active := false), Fault)
      else if vector == TIMER && preemption then (p.(state := Ready), Preempted)
      else (p, Return)
  }

  /** The process holds a capability for a target behind a handle; for any target if it is `FOREVER`. */
  predicate Holds(p: Process, handle: nat, kind: nat, right: nat, target: nat)
    requires Fine(p)
  {
    p.appId != 0 && exists slot: nat ::
      slot < Capabilities.SLOTS && Capabilities.Resolves(p.capabilities, handle, slot, kind, {right}) &&
      target in {FOREVER, p.capabilities.entries[slot].target}
  }

  /** A present counts when it is authorized, well formed and newer than the one before. */
  predicate Newer(p: Process, e: Event)
    requires Fine(p)
  {
    && e.Present? && e.proper && Holds(p, e.handle, Capabilities.SURFACE, Capabilities.PRESENT, p.surface)
    && e.sequence > 0 && (p.presentValid ==> e.sequence > p.sequence)
  }

  /** A wait blocks when it is authorized, nothing waits in the ring and its deadline is still to come. */
  predicate Blocks(p: Process, e: Event)
    requires Fine(p)
  {
    && e.Wait? && Holds(p, e.handle, Capabilities.INPUT, Capabilities.WAIT, p.appId)
    && Keys(p) == [] && (e.deadline == FOREVER || e.now < e.deadline)
  }

  /** A poll gives a key when it is authorized and one waits. */
  predicate Gives(p: Process, e: Event)
    requires Fine(p)
  {
    e.Poll? && Holds(p, e.handle, Capabilities.INPUT, Capabilities.READ, p.appId) && Keys(p) != []
  }

  /** What an event makes of each part of the process, and which event takes the processor away. */
  ghost predicate Handled(p: Process, e: Event, q: Process, action: Action, preemption: bool)
    requires Fine(p) && Fine(q)
  {
    HandledIn(p, e, q, action, preemption, 3)
  }

  /** Handled, n steps away from its body. */
  ghost predicate HandledIn(p: Process, e: Event, q: Process, action: Action, preemption: bool, n: nat)
    requires Fine(p) && Fine(q)
    decreases n, q
  {
    if n > 0 then HandledIn(p, e, q, action, preemption, n - 1)
    else
      && q.appId == p.appId && q.capabilities == p.capabilities && q.surface == p.surface
      && (action.Waiting? <==> Blocks(p, e)) && q.deadline == (if Blocks(p, e) then e.deadline else p.deadline)
      && (action.Ended? <==> e.Exit?) && q.exitStatus == (if e.Exit? then e.status else p.exitStatus)
      && (action.Fault? <==> e.Interrupt? && e.vector < 32)
      && q.faultVector == (if e.Interrupt? && e.vector < 32 then e.vector else p.faultVector)
      && (action.Yielded? <==> e.Yield?) && (action.Preempted? <==> e.Interrupt? && e.vector == 0x40 && preemption)
      && (q.active <==> p.active && !action.Ended? && !action.Fault?)
      && (if action.Return? then q.state == p.state else Matches(action, q.state))
      && q.sequence == (if Newer(p, e) then e.sequence else p.sequence)
      && (q.presentValid <==> p.presentValid || Newer(p, e))
      && q.input == p.input && q.head == p.head && Keys(q) == if Gives(p, e) then Keys(p)[1..] else Keys(p)
  }

  lemma OpenHandled(p: Process, e: Event, q: Process, action: Action, preemption: bool)
    requires Fine(p) && Fine(q)
    ensures Handled(p, e, q, action, preemption) <==> HandledIn(p, e, q, action, preemption, 0)
  {
    assert HandledIn(p, e, q, action, preemption, 1) == HandledIn(p, e, q, action, preemption, 0);
    assert HandledIn(p, e, q, action, preemption, 2) == HandledIn(p, e, q, action, preemption, 1);
  }

  lemma Authority(p: Process, handle: nat, kind: nat, right: nat, target: nat)
    requires Fine(p)
    ensures Authorized(p, handle, kind, right, target) <==> Holds(p, handle, kind, right, target)
  {}

  /** What an authorized poll takes from the ring. */
  lemma RingAfter(p: Process, q: Process)
    requires Fine(p) && p.head != p.tail && q == p.(tail := After(p.tail, 32))
    ensures Keys(p) != [] && Keys(q) == Keys(p)[1..] && Keys(p)[0] == p.input[p.tail]
  {
    Take(p.input, p.head, p.tail);
  }

  lemma PollHandled(p: Process, handle: nat, preemption: bool)
    requires Fine(p)
    ensures var (q, action) := Turn(p, Poll(handle), preemption);
      Handled(p, Poll(handle), q, action, preemption)
  {
    var (q, action) := Turn(p, Poll(handle), preemption);
    Authority(p, handle, Capabilities.INPUT, Capabilities.READ, p.appId);
    if p.head != p.tail { RingAfter(p, p.(tail := After(p.tail, 32))); }
    OpenHandled(p, Poll(handle), q, action, preemption);
  }

  lemma WaitHandled(p: Process, handle: nat, deadline: nat, now: nat, preemption: bool)
    requires Fine(p)
    ensures var (q, action) := Turn(p, Wait(handle, deadline, now), preemption);
      Handled(p, Wait(handle, deadline, now), q, action, preemption)
  {
    var (q, action) := Turn(p, Wait(handle, deadline, now), preemption);
    Authority(p, handle, Capabilities.INPUT, Capabilities.WAIT, p.appId);
    OpenHandled(p, Wait(handle, deadline, now), q, action, preemption);
  }

  lemma TurnHandled(p: Process, e: Event, preemption: bool)
    requires Fine(p)
    ensures Handled(p, e, Turn(p, e, preemption).0, Turn(p, e, preemption).1, preemption)
  {
    var (q, action) := Turn(p, e, preemption);
    match e
    case Poll(handle) => PollHandled(p, handle, preemption);
    case Wait(handle, deadline, now) => WaitHandled(p, handle, deadline, now, preemption);
    case Present(handle, proper, sequence) =>
      Authority(p, handle, Capabilities.SURFACE, Capabilities.PRESENT, p.surface);
      OpenHandled(p, e, q, action, preemption);
    case _ => OpenHandled(p, e, q, action, preemption);
  }

  /** What TurnHandled says of sleep and of presents. */
  lemma TurnParts(p: Process, e: Event, preemption: bool)
    requires Fine(p)
    ensures
      var (q, action) := Turn(p, e, preemption);
      && (q.state.Blocked? && !p.state.Blocked? ==> Blocks(p, e) && q.deadline == e.deadline && !action.Return?)
      && (p.presentValid ==> q.presentValid && q.sequence >= p.sequence)
  {
    var (q, action) := Turn(p, e, preemption);
    TurnHandled(p, e, preemption);
    OpenHandled(p, e, q, action, preemption);
  }

  /** The events of a program up to the first that ends its turn. */
  function Outcome(p: Process, script: seq<Event>, preemption: bool): (r: (Process, Action))
    requires Fine(p)
    ensures Fine(r.0)
    decreases |script|
  {
    if script == [] then (p, Return)
    else
      var (q, action) := Turn(p, script[0], preemption);
      if action.Return? then Outcome(q, script[1..], preemption) else (q, action)
  }

  /** A turn of the processor for a ready process. */
  function Ran(p: Process, script: seq<Event>, preemption: bool): (r: (Process, Action))
    requires Fine(p)
  {
    Outcome(p.(state := Running), script, preemption)
  }

  /** The key an event gets from the ring of the running process. */
  function Polled(p: Process, e: Event): seq<nat>
    requires Fine(p)
  {
    if e.Poll? && MayPoll(p, e.handle) && p.head != p.tail then [p.input[p.tail]] else []
  }

  /** The keys a program gets from its ring before its turn ends, in order. */
  function Taken(p: Process, script: seq<Event>, preemption: bool): seq<nat>
    requires Fine(p)
    decreases |script|
  {
    if script == [] then []
    else
      var (q, action) := Turn(p, script[0], preemption);
      Polled(p, script[0]) + if action.Return? then Taken(q, script[1..], preemption) else []
  }

  function RanKeys(p: Process, script: seq<Event>, preemption: bool): seq<nat>
    requires Fine(p)
  {
    Taken(p.(state := Running), script, preemption)
  }

  /** No capability of a table is of a kind. */
  predicate Lacks(t: Capabilities.Table, kind: nat) {
    forall e :: e in t.entries ==> e.kind != kind
  }

  lemma TurnConfined(p: Process, e: Event, preemption: bool)
    requires Fine(p)
    ensures Turn(p, e, preemption).0.capabilities == p.capabilities
    ensures Lacks(p.capabilities, Capabilities.INPUT) && !p.state.Blocked? ==>
      !Turn(p, e, preemption).0.state.Blocked? && Turn(p, e, preemption).0.tail == p.tail
    ensures Lacks(p.capabilities, Capabilities.SURFACE) ==> Turn(p, e, preemption).0.presentValid == p.presentValid
  {}

  /**
  Whatever a program does in a turn, it cannot change its capabilities; without an input capability it takes
  no key and cannot block, and without a surface capability it presents nothing.
  */
  lemma {:induction false} Confined(p: Process, script: seq<Event>, preemption: bool)
    requires Fine(p)
    ensures Outcome(p, script, preemption).0.capabilities == p.capabilities
    ensures Lacks(p.capabilities, Capabilities.INPUT) && !p.state.Blocked? ==>
      !Outcome(p, script, preemption).0.state.Blocked? && Outcome(p, script, preemption).0.tail == p.tail
    ensures Lacks(p.capabilities, Capabilities.SURFACE) ==>
      Outcome(p, script, preemption).0.presentValid == p.presentValid
    decreases |script|
  {
    if script != [] {
      TurnConfined(p, script[0], preemption);
      Confined(Turn(p, script[0], preemption).0, script[1..], preemption);
    }
  }

  /** The keys a slot was ever given and ever polled, in its present life. */
  datatype History = History(accepted: seq<nat>, polled: seq<nat>)

  function Delivered(h: History, keys: seq<nat>): History { History(h.accepted, h.polled + keys) }

  function Accepted(h: History, key: nat): History { History(h.accepted + [key], h.polled) }

  const NO_HISTORY := History([], [])

  lemma DeliveredTwice(h: History, a: seq<nat>, b: seq<nat>)
    ensures Delivered(Delivered(h, a), b) == Delivered(h, a + b) && Delivered(h, []) == h
  {
    assert h.polled + a + b == h.polled + (a + b);
  }

  predicate SlotOk(p: Process, h: History, i: nat, current: int) {
    && Fine(p) && (p.state.Running? <==> i == current) && (p.appId != 0 ==> i >= FIRST_APP)
    && Accounted(h, p.input, p.head, p.tail, 3)
  }

  /** A key is a byte other than zero. */
  predicate AreKeys(keys: seq<nat>) { forall key :: key in keys ==> 0 < key < 256 }

  /** Every key given was polled or waits in the ring, in order. (Folded: n steps away from its body.) */
  predicate Accounted(h: History, input: seq<nat>, head: nat, tail: nat, n: nat)
    requires head < |input| && tail < |input|
    decreases n, |input|
  {
    if n > 0 then Accounted(h, input, head, tail, n - 1)
    else h.accepted == h.polled + Between(input, head, tail) && AreKeys(h.accepted)
  }

  lemma OpenAccount(h: History, input: seq<nat>, head: nat, tail: nat)
    requires head < |input| && tail < |input|
    ensures Accounted(h, input, head, tail, 3) <==>
      h.accepted == h.polled + Between(input, head, tail) && AreKeys(h.accepted)
  {
    assert Accounted(h, input, head, tail, 1) == Accounted(h, input, head, tail, 0);
    assert Accounted(h, input, head, tail, 2) == Accounted(h, input, head, tail, 1);
  }

  /** Nothing given, nothing waiting. */
  lemma NothingGiven(input: seq<nat>, at: nat)
    requires at < |input|
    ensures Accounted(NO_HISTORY, input, at, at, 3)
  {
    OpenAccount(NO_HISTORY, input, at, at);
  }

  /** Where the rest of a program leads from its event number `k` on, and with which history. */
  function Rest(p: Process, h: History, script: seq<Event>, k: nat, preemption: bool): ((Process, Action), History)
    requires Fine(p) && k <= |script|
  {
    (Outcome(p, script[k..], preemption), Delivered(h, Taken(p, script[k..], preemption)))
  }

  lemma RestFirst(p: Process, h: History, script: seq<Event>, k: nat, preemption: bool)
    requires Fine(p) && k < |script|
    ensures
      var (q, action) := Turn(p, script[k], preemption);
      var h' := Delivered(h, Polled(p, script[k]));
      Rest(p, h, script, k, preemption) ==
        if action.Return? then Rest(q, h', script, k + 1, preemption) else ((q, action), h')
  {
    var (q, action) := Turn(p, script[k], preemption);
    assert script[k..][1..] == script[k + 1..];
    var keys := Polled(p, script[k]);
    DeliveredTwice(h, keys, if action.Return? then Taken(q, script[k + 1..], preemption) else []);
    assert keys + [] == keys;
  }

  lemma RestEnds(p: Process, h: History, script: seq<Event>, preemption: bool)
    requires Fine(p)
    ensures Rest(p, h, script, |script|, preemption) == ((p, Return), h)
    ensures Rest(p, h, script, 0, preemption) ==
      (Outcome(p, script, preemption), Delivered(h, Taken(p, script, preemption)))
  {
    assert script[0..] == script && script[|script|..] == [];
    DeliveredTwice(h, [], []);
  }

  lemma SlotPop(p: Process, h: History, i: nat, current: int)
    requires SlotOk(p, h, i, current) && p.head != p.tail
    ensures SlotOk(p.(tail := After(p.tail, 32)), Delivered(h, [p.input[p.tail]]), i, current)
    ensures 0 < p.input[p.tail] < 256
  {
    OpenAccount(h, p.input, p.head, p.tail);
    OpenAccount(Delivered(h, [p.input[p.tail]]), p.input, p.head, After(p.tail, 32));
    Take(p.input, p.head, p.tail);
    assert h.accepted[|h.polled|] == p.input[p.tail] && h.accepted[|h.polled|] in h.accepted;
    assert h.polled + ([p.input[p.tail]] + Between(p.input, p.head, After(p.tail, 32))) ==
           h.polled + [p.input[p.tail]] + Between(p.input, p.head, After(p.tail, 32));
  }

  /** The process with a key appended; it is no longer blocked. */
  function Given(p: Process, key: nat): Process
    requires Fine(p)
  {
    var state := if p.state.Blocked? then Ready else p.state;
    p.(input := p.input[p.head := key], head := After(p.head, 32), state := state)
  }

  lemma SlotPush(p: Process, h: History, i: nat, current: int, key: nat)
    requires SlotOk(p, h, i, current) && After(p.head, 32) != p.tail && 0 < key < 256
    ensures SlotOk(Given(p, key), Accepted(h, key), i, current) && Keys(Given(p, key)) == Keys(p) + [key]
  {
    var q := Given(p, key);
    OpenAccount(h, p.input, p.head, p.tail);
    OpenAccount(Accepted(h, key), q.input, q.head, q.tail);
    Unpublished(p.input, p.head, p.tail, key);
    Publish(q.input, p.head, p.tail);
  }

  predicate Sound(ps: seq<Process>, hs: seq<History>, current: int, configured: nat) {
    && |ps| == SLOTS && |hs| == SLOTS && configured <= SLOTS && -1 <= current < configured
    && (forall i :: 0 <= i < SLOTS ==> SlotOk(ps[i], hs[i], i, current))
    && forall i :: configured <= i < SLOTS ==> ps[i].state.Unused?
  }

  predicate Eligible(ps: seq<Process>, i: nat)
    requires i < |ps|
  {
    ps[i].state.Ready? && (ps[i].appId == 0 || ps[i].active)
  }

  class Scheduler {
    var ps: seq<Process>
    var current: int
    var configured: nat
    var cursor: nat
    var focused: nat
    var preemption: bool
    ghost var hs: seq<History>
    ghost var rounds: seq<Round>

    /** The process table is in order. */
    ghost predicate Stable()
      reads this`ps, this`hs, this`current, this`configured
    {
      Sound(ps, hs, current, configured)
    }

    /** The process table is in order, and the rounds so far follow each other up to the cursor. */
    ghost predicate Valid()
      reads this
    {
      Stable() && Logged(rounds, cursor, 3)
    }

    /** No process, and nothing running. */
    constructor ()
      ensures Valid() && current == -1 && configured == 0 && rounds == []
    {
      NothingGiven(NoKeys(), 0);
      OpenLog([], 0);
      ps, hs, rounds := seq(SLOTS, _ => Empty()), seq(SLOTS, _ => NO_HISTORY), [];
      current, configured, cursor, focused, preemption := -1, 0, 0, 0, false;
    }

    /** Updates the running process; its ring stays as it is. */
    method Put(p: Process)
      requires Stable() && current >= 0 && Fine(p) && p.appId == ps[current].appId
      requires p.input == ps[current].input && p.head == ps[current].head && p.tail == ps[current].tail
      modifies this`ps
      ensures ps == old(ps)[current := p]
      ensures if p.state.Running? then Stable() else Sound(ps, hs, -1, configured)
    {
      ps := ps[current := p];
    }

    /** One system call or interrupt of the running process. */
    method Handle(e: Event) returns (action: Action, result: nat)
      requires Stable() && current >= 0
      modifies this`ps, this`hs
      ensures if action.Return? then Stable() else Sound(ps, hs, -1, configured) && Matches(action, ps[current].state)
      ensures ps == old(ps)[current := Turn(old(ps)[current], e, preemption).0]
      ensures action == Turn(old(ps)[current], e, preemption).1
      ensures hs == old(hs)[current := Delivered(old(hs)[current], Polled(old(ps)[current], e))]
      ensures Polled(old(ps)[current], e) == if e.Poll? && result != 0 && result != FOREVER then [result] else []
      ensures Handled(old(ps)[current], e, ps[current], action, preemption)
    {
      var p := ps[current];
      DeliveredTwice(hs[current], [], []);
      TurnHandled(p, e, preemption);
      match e
      case Yield =>
        Put(p.(state := Ready));
        return Yielded, 0;
      case Exit(status) =>
        Put(p.(state := Exited, exitStatus := status, active := false));
        return Ended, 0;
      case Poll(handle) =>
        if !MayPoll(p, handle) { return Return, FOREVER; }
        result := PollInput();
        return Return, result;
      case Present(handle, proper, sequence) =>
        result := PresentSurface(handle, proper, sequence);
        return Return, result;
      case Wait(handle, deadline, now) =>
        action, result := WaitForInput(handle, deadline, now);
      case OtherCall =>
        return Return, 0;
      case Interrupt(vector) =>
        action := TakeInterrupt(vector);
        return action, 0;
    }

    method PresentSurface(handle: nat, proper: bool, sequence: nat) returns (result: nat)
      requires Stable() && current >= 0
      modifies this`ps
      ensures Stable()
      ensures ps == old(ps)[current := Turn(old(ps)[current], Present(handle, proper, sequence), preemption).0]
    {
      var p := ps[current];
      if !MayPresent(p, handle) || !proper { return FOREVER; }
      if sequence == 0 || (p.presentValid && sequence <= p.sequence) { return FOREVER; }
      Put(p.(sequence := sequence, presentValid := true));
      return 0;
    }

    method WaitForInput(handle: nat, deadline: nat, now: nat) returns (action: Action, result: nat)
      requires Stable() && current >= 0
      modifies this`ps
      ensures if action.Return? then Stable() else action.Waiting? && Sound(ps, hs, -1, configured)
      ensures (ps[current], action) == Turn(old(ps)[current], Wait(handle, deadline, now), preemption)
      ensures ps == old(ps)[current := ps[current]]
      ensures action.Waiting? ==> ps[current].state.Blocked?
    {
      var p := ps[current];
      if !MayWait(p, handle) { return Return, FOREVER; }
      if p.tail != p.head || (deadline != FOREVER && deadline <= now) { return Return, 0; }
      Put(p.(deadline := deadline, state := Blocked));
      return Waiting, 0;
    }

    method TakeInterrupt(vector: nat) returns (action: Action)
      requires Stable() && current >= 0
      modifies this`ps
      ensures if action.Return? then Stable() else Sound(ps, hs, -1, configured) && Matches(action, ps[current].state)
      ensures (ps[current], action) == Turn(old(ps)[current], Interrupt(vector), preemption)
      ensures ps == old(ps)[current := ps[current]] && !action.Waiting?
    {
      var p := ps[current];
      if vector < 32 {
        Put(p.(faultVector := vector, state := Faulted, active := false));
        return Fault;
      }
      if vector == TIMER && preemption {
        Put(p.(state := Ready));
        return Preempted;
      }
      return Return;
    }

    /** The oldest key, or 0. */
    method PollInput() returns (key: nat)
      requires Stable() && current >= 0
      modifies this`ps, this`hs
      ensures Stable()
      ensures
        var p := old(ps)[current];
        ps == if Keys(p) == [] then old(ps) else old(ps)[current := p.(tail := After(p.tail, 32))]
      ensures hs == old(hs)[current := Delivered(old(hs)[current], if Keys(old(ps)[current]) == [] then [] else [key])]
      ensures key == 0 <==> Keys(old(ps)[current]) == []
      ensures key != 0 ==> key == Keys(old(ps)[current])[0] == old(ps)[current].input[old(ps)[current].tail]
      ensures key != FOREVER
    {
      var p := ps[current];
      DeliveredTwice(hs[current], [], []);
      if p.tail == p.head { return 0; }
      key := p.input[p.tail];
      SlotPop(p, hs[current], current, current);
      hs := hs[current := Delivered(hs[current], [key])];
      ps := ps[current := p.(tail := After(p.tail, 32))];
    }

    /** The running program goes on; when an event takes the processor away, the action matches its state. */
    method Resume(script: seq<Event>) returns (r: bool, back: bool)
      requires Stable() && current >= 0
      modifies this`ps, this`hs, this`current
      ensures Stable() && (r <==> back) && current == if back then -1 else old(current)
      ensures ps == old(ps)[old(current) := Outcome(old(ps)[old(current)], script, preemption).0]
      ensures back <==> !Outcome(old(ps)[old(current)], script, preemption).1.Return?
      ensures hs == old(hs)[old(current) :=
        Delivered(old(hs)[old(current)], Taken(old(ps)[old(current)], script, preemption))]
    {
      RestEnds(ps[current], hs[current], script, preemption);
      ghost var goal := Rest(ps[current], hs[current], script, 0, preemption);
      for k := 0 to |script|
        invariant Stable() && current == old(current) && ps == old(ps)[current := ps[current]]
        invariant hs == old(hs)[current := hs[current]]
        invariant Rest(ps[current], hs[current], script, k, preemption) == goal
      {
        RestFirst(ps[current], hs[current], script, k, preemption);
        ghost var ps0, hs0 := ps, hs;
        var action, _ := Handle(script[k]);
        Rewritten(old(ps), ps0, current, ps);
        Rewritten(old(hs), hs0, current, hs);
        if !action.Return? {
          var index := current;
          current := -1;
          return Matches(action, ps[index].state), true;
        }
      }
      RestEnds(ps[current], hs[current], script, preemption);
      return false, false;
    }

    /**
    dispatch_process with the events of a user program. A ready process is run until an event takes the
    processor away, and then the action always matches its state. If the events run out first, the
    program is still running.
    */
    method Dispatch(index: nat, script: seq<Event>) returns (r: bool, back: bool)
      requires Stable() && current == -1
      modifies this`ps, this`hs, this`current
      ensures Stable() && (back <==> current == -1)
      ensures index >= configured || !old(ps)[index].state.Ready? ==> !r && back && ps == old(ps) && hs == old(hs)
      ensures index < configured && old(ps)[index].state.Ready? ==> (r <==> back) && (!back ==> current == index)
      ensures index < configured && old(ps)[index].state.Ready? ==>
        ps == old(ps)[index := Ran(old(ps)[index], script, preemption).0] &&
        (back <==> !Ran(old(ps)[index], script, preemption).1.Return?)
      ensures index < configured && old(ps)[index].state.Ready? ==>
        hs == old(hs)[index := Delivered(old(hs)[index], RanKeys(old(ps)[index], script, preemption))]
    {
      if index >= configured || !ps[index].state.Ready? { return false, true; }
      current := index;
      ps := ps[index := ps[index].(state := Running)];
      r, back := Resume(script);
    }

    /** The wake pass: afterwards no blocked process has an expired deadline. */
    method Wake(now: nat)
      requires Stable()
      modifies this`ps
      ensures Stable() && forall i :: 0 <= i < SLOTS ==> ps[i] == Woken(old(ps)[i], now)
    {
      var index := FIRST_APP;
      while index < configured
        invariant FIRST_APP <= index && Stable()
        invariant forall i :: 0 <= i < SLOTS ==> ps[i] == if i < index then Woken(old(ps)[i], now) else old(ps)[i]
      {
        var p := ps[index];
        if p.state.Blocked? && !(p.tail == p.head && !Expired(p, now)) {
          ps := ps[index := p.(state := Ready)];
        }
        index := index + 1;
      }
    }

    /** The first eligible slot at or after `start`, going round; -1 when there is none. */
    method NextReady(start: nat) returns (r: int)
      requires Stable()
      ensures Choice(ps, start, configured, r)
      ensures r >= 0 ==> ps[r].state.Ready? && (ps[r].appId == 0 || ps[r].active)
      ensures r < 0 ==> forall i :: 0 <= i < configured && ps[i].state.Ready? ==> ps[i].appId != 0 && !ps[i].active
    {
      if configured == 0 { return -1; }
      for offset := 0 to configured
        invariant forall i :: 0 <= i < configured && Distance(start, i, configured) < offset ==> !Eligible(ps, i)
      {
        var index := (start + offset) % configured;
        DistanceOf(start, offset, configured);
        forall i | 0 <= i < configured && Distance(start, i, configured) == offset ensures i == index {
          DistanceAt(start, i, configured);
        }
        if Eligible(ps, index) { return index; }
      }
      forall i | 0 <= i < configured ensures !(ps[i].state.Ready? && (ps[i].appId == 0 || ps[i].active)) {
        DistanceAt(start, i, configured);
        assert !Eligible(ps, i);
      }
      return -1;
    }

    /** A wake pass, a choice, and a turn for the chosen process. */
    method GiveTurn(now: nat, script: seq<Event>) returns (r: bool, selected: int)
      requires Stable() && current == -1
      modifies this`ps, this`hs, this`current, this`cursor
      ensures Stable() && Choice(WokenAll(old(ps), now), old(cursor), configured, selected)
      ensures ps == TurnTaken(WokenAll(old(ps), now), selected, script, preemption)
      ensures hs == TurnKept(old(hs), WokenAll(old(ps), now), selected, script, preemption)
      ensures cursor == NextCursor(old(cursor), selected, configured)
      ensures current == Holder(WokenAll(old(ps), now), selected, script, preemption)
      ensures current == -1 ==> (r <==> selected >= 0)
    {
      Wake(now);
      assert ps == WokenAll(old(ps), now);
      selected := NextReady(cursor);
      if selected < 0 { return false, selected; }
      cursor := (selected + 1) % configured;
      var back;
      r, back := Dispatch(selected, script);
    }

    /** process_run_ready_once: a round, unless a process is running. */
    method RunReadyOnce(now: nat, script: seq<Event>) returns (r: bool, selected: int)
      requires Valid()
      modifies this`ps, this`hs, this`current, this`cursor, this`rounds
      ensures Valid()
      ensures old(current) >= 0 ==>
        !r && ps == old(ps) && hs == old(hs) && current == old(current) && cursor == old(cursor) &&
        rounds == old(rounds)
      ensures old(current) < 0 ==> Choice(WokenAll(old(ps), now), old(cursor), configured, selected)
      ensures old(current) < 0 ==>
        rounds == old(rounds) + [RoundOf(old(ps), now, old(cursor), configured, selected, script, preemption)] &&
        ps == rounds[|old(rounds)|].after && cursor == NextCursor(old(cursor), selected, configured) &&
        current == Holder(WokenAll(old(ps), now), selected, script, preemption)
      ensures old(current) < 0 ==> hs == TurnKept(old(hs), WokenAll(old(ps), now), selected, script, preemption)
      ensures old(current) < 0 && current < 0 ==> (r <==> selected >= 0)
    {
      if current >= 0 { return false, -1; }
      r, selected := GiveTurn(now, script);
      ghost var round := RoundOf(old(ps), now, old(cursor), configured, selected, script, preemption);
      RoundsMore(rounds, old(cursor), round);
      rounds := rounds + [round];
    }

    /** process_app_input: a key is refused, or appended to the ring and the process is awake. */
    method AppInput(slot: nat, key: nat) returns (r: bool)
      requires Stable() && key < 256
      modifies this`ps, this`hs
      ensures Stable()
      ensures r ==> slot < SLOTS && hs == old(hs)[slot := Accepted(old(hs)[slot], key)]
      ensures r ==> ps == old(ps)[slot := Given(old(ps)[slot], key)] && ps[slot].state.Ready?
      ensures !r ==> ps == old(ps) && hs == old(hs)
      ensures r <==>
        && slot < SLOTS && key != 0 && old(ps)[slot].active && old(ps)[slot].presentValid
        && old(ps)[slot].state in {Ready, Blocked} && |Keys(old(ps)[slot])| < 31
      ensures r ==> Keys(ps[slot]) == Keys(old(ps)[slot]) + [key]
      ensures ps == KeyGiven(old(ps), slot, key) && hs == KeyKept(old(hs), old(ps), slot, key)
    {
      if slot >= SLOTS || !Listening(ps[slot]) || key == 0 { return false; }
      var p := ps[slot];
      if After(p.head, 32) == p.tail { return false; }
      SlotPush(p, hs[slot], slot, current, key);
      hs := hs[slot := Accepted(hs[slot], key)];
      ps := ps[slot := Given(p, key)];
      return true;
    }

    /** process_app_set_active: input goes to the online slots of one application. */
    method SetActive(appId: nat)
      requires Stable()
      modifies this`ps, this`focused
      ensures Stable() && focused == appId
      ensures ps == FocusedAll(old(ps), appId, configured)
      ensures forall i :: FIRST_APP <= i < configured ==>
        && ps[i] == old(ps)[i].(active := ps[i].active)
        && (ps[i].active <==>
            old(ps)[i].appId == appId != 0 && old(ps)[i].presentValid && old(ps)[i].state in {Ready, Blocked, Running})
    {
      focused := appId;
      var index := FIRST_APP;
      while index < configured
        invariant FIRST_APP <= index && (index <= configured || index == FIRST_APP) && Stable() && focused == appId
        invariant ps == FocusedAll(old(ps), appId, index)
      {
        ps := ps[index := Focused(ps[index], appId)];
        index := index + 1;
      }
    }

    /** A slot is emptied; the keys of its old life are gone with it. */
    method Release(slot: nat)
      requires Stable() && current == -1 && slot < SLOTS
      modifies this`ps, this`hs
      ensures Stable() && ps == old(ps)[slot := Empty()] && hs == old(hs)[slot := NO_HISTORY]
    {
      NothingGiven(NoKeys(), 0);
      hs := hs[slot := NO_HISTORY];
      ps := ps[slot := Empty()];
    }

    /** The dispatch loop of start_app_internal. */
    method Settle(slot: nat, scripts: seq<seq<Event>>) returns (r: bool)
      requires Stable() && current == -1 && slot < configured && |scripts| >= 32
      modifies this`ps, this`hs, this`current
      ensures Stable()
      ensures ps == old(ps)[slot := Settled(old(ps)[slot], scripts, 0, preemption).0]
      ensures hs == old(hs)[slot := Delivered(old(hs)[slot], SettledKeys(old(ps)[slot], scripts, 0, preemption))]
      ensures current == if Settled(old(ps)[slot], scripts, 0, preemption).1 then -1 else slot
      ensures r <==> current == -1 && ps[slot].presentValid && ps[slot].state in {Ready, Blocked}
    {
      ghost var goal := Settled(ps[slot], scripts, 0, preemption);
      ghost var kept := Delivered(hs[slot], SettledKeys(ps[slot], scripts, 0, preemption));
      for attempt := 0 to 32
        invariant Stable() && current == -1
        invariant ps == old(ps)[slot := ps[slot]] && hs == old(hs)[slot := hs[slot]]
        invariant Settled(ps[slot], scripts, attempt, preemption) == goal
        invariant Delivered(hs[slot], SettledKeys(ps[slot], scripts, attempt, preemption)) == kept
      {
        var p := ps[slot];
        SettledFirst(p, scripts, attempt, preemption, hs[slot]);
        if p.presentValid && p.state.Blocked? { return true; }
        if !p.state.Ready? { return Up(p); }
        ghost var ps0, hs0 := ps, hs;
        var done, back := Dispatch(slot, scripts[attempt]);
        Rewritten(old(ps), ps0, slot, ps);
        Rewritten(old(hs), hs0, slot, hs);
        if !back { return false; }
      }
      DeliveredTwice(hs[slot], [], []);
      return Up(ps[slot]);
    }

    /** A loaded process takes an unused slot. */
    method Install(slot: nat, app: Process)
      requires Stable() && current == -1 && FIRST_APP <= slot < SLOTS && ps[slot].state.Unused? && Loaded(app)
      modifies this`ps, this`hs, this`configured
      ensures Stable() && configured == if old(configured) <= slot then slot + 1 else old(configured)
      ensures ps == old(ps)[slot := app] && hs == old(hs)[slot := NO_HISTORY]
    {
      NothingGiven(NoKeys(), 0);
      hs := hs[slot := NO_HISTORY];
      ps := ps[slot := app];
      if configured <= slot { configured := slot + 1; }
    }

    /**
    start_app_internal once the image is loaded, given the verdict of its mapping test: the application gets
    turns until it has presented and waits, it ends, or 32 turns are over.
    */
    method Launch(slot: nat, app: Process, isolated: bool, scripts: seq<seq<Event>>) returns (r: bool)
      requires Stable() && current == -1 && FIRST_APP <= slot < SLOTS && ps[slot].state.Unused?
      requires Loaded(app) && |scripts| >= 32
      modifies this`ps, this`hs, this`current, this`configured
      ensures Stable() && configured == if old(configured) <= slot then slot + 1 else old(configured)
      ensures !isolated ==> !r && ps == old(ps)[slot := Empty()] && hs == old(hs)[slot := NO_HISTORY] && current == -1
      ensures isolated ==> ps == old(ps)[slot := Settled(app, scripts, 0, preemption).0]
      ensures isolated ==>
        hs == old(hs)[slot := Delivered(NO_HISTORY, SettledKeys(app, scripts, 0, preemption))]
      ensures isolated ==> current == if Settled(app, scripts, 0, preemption).1 then -1 else slot
      ensures r <==> isolated && current == -1 && ps[slot].presentValid && ps[slot].state in {Ready, Blocked}
    {
      Install(slot, app);
      if isolated {
        r := Settle(slot, scripts);
      } else {
        Release(slot);
        r := false;
      }
    }

    /** Keys and changes of focus, which may come between two rounds. */
    method Disturb(ops: seq<Op>, ghost k: nat, ghost app: nat)
      requires Stable() && current == -1 && k < SLOTS && forall op :: op in ops ==> Spares(op, app)
      modifies this`ps, this`hs, this`focused
      ensures Stable() && ps == DisturbedAll(old(ps), ops, configured)
      ensures hs == DisturbedKeys(old(hs), old(ps), ops, configured)
      ensures old(Runnable(ps, k, app)) ==> Runnable(ps, k, app)
    {
      for i := 0 to |ops|
        invariant Stable() && (old(Runnable(ps, k, app)) ==> Runnable(ps, k, app))
        invariant ps == DisturbedAll(old(ps), ops[..i], configured)
        invariant hs == DisturbedKeys(old(hs), old(ps), ops[..i], configured)
      {
        assert ops[i] in ops && SlotOk(ps[k], hs[k], k, current);
        assert ops[..i + 1][..i] == ops[..i];
        match ops[i]
        case Key(slot, key) => if key < 256 { var r := AppInput(slot, key); }
        case Focus(appId) => SetActive(appId);
      }
      assert ops[..|ops|] == ops;
    }

    ghost function Now(): System
      reads this
    {
      System(ps, hs, current, configured, cursor, focused, preemption, rounds)
    }

    /** One call, with keys and changes of focus before it: slot `k` gets the turn, or comes closer to it. */
    method Attend(v: Visit, ghost k: nat, ghost app: nat) returns (ghost selected: int)
      requires Valid() && current == -1 && k < configured && Calm(v, app)
      modifies this`ps, this`hs, this`focused, this`current, this`cursor, this`rounds
      ensures Valid() && Visited(old(Now()), v, Now()) && |rounds| == |old(rounds)| + 1 && old(rounds) <= rounds
      ensures rounds[|old(rounds)|].selected == selected
      ensures old(Runnable(ps, k, app)) && selected != k ==>
        Runnable(ps, k, app) && Distance(cursor, k, configured) < Distance(old(cursor), k, configured)
    {
      Disturb(v.before, k, app);
      ghost var saw := WokenAll(ps, v.now);
      ghost var mid := Now();
      var r;
      r, selected := RunReadyOnce(v.now, v.script);
      if old(Runnable(ps, k, app)) { Closer(saw, old(cursor), configured, selected, k); }
      assert Now() == RoundDone(mid, v.now, selected, v.script);
      OpenVisited(old(Now()), v, Now());
    }

    /**
    Successive calls of process_run_ready_once, with keys and changes of focus before each: a slot that is
    eligible at the start and whose focus is not taken away gets a turn within as many calls as there are
    slots, whatever the other programs do, as long as each gives the processor back.
    */
    method Serve(visits: seq<Visit>, ghost k: nat, ghost app: nat) returns (ghost trace: seq<System>)
      requires Valid() && current == -1 && k < configured && Runnable(ps, k, app)
      requires forall v :: v in visits ==> Calm(v, app)
      modifies this`ps, this`hs, this`focused, this`current, this`cursor, this`rounds
      ensures Valid() && Visits(trace, visits) && trace[0] == old(Now()) && trace[|trace| - 1] == Now()
      ensures |rounds| == |old(rounds)| + |trace| - 1 && (current == -1 ==> |trace| == |visits| + 1)
      ensures current == -1 && |visits| >= configured ==> Served(rounds, |old(rounds)|, configured, k)
    {
      DistanceAt(cursor, k, configured);
      trace := [Now()];
      var t := 0;
      while t < |visits| && current == -1
        invariant t <= |visits| && Valid() && |rounds| == |old(rounds)| + t && |trace| == t + 1
        invariant Visits(trace, visits) && trace[0] == old(Now()) && trace[t] == Now()
        invariant Served(rounds, |old(rounds)|, configured, k) || Near(ps, cursor, configured, k, app, t)
      {
        assert visits[t] in visits;
        ghost var s, ps0, cursor0, rounds0 := Now(), ps, cursor, rounds;
        ghost var selected := Attend(visits[t], k, app);
        Progress(rounds0, rounds, |old(rounds)|, configured, k, ps0, ps, cursor0, cursor, app, t);
        assert Visited(s, visits[t], Now());
        VisitsMore(trace, visits, Now());
        trace := trace + [Now()];
        t := t + 1;
      }
    }

    /**
    Every run is a sequence of steps of the process system that keeps the invariant, whatever the user
    programs do. It is fair: a slot that is eligible in as many successive rounds as there are slots gets a
    turn in one of them. And it delivers every key once: as long as a slot is neither stopped nor started, what
    waited in its ring and was then accepted is what its program polled and what still waits, in order. It
    neither loses a wake-up nor gives one early: a blocked process becomes ready with the first key or the first
    wake pass at or after the deadline of the wait that blocked it.
    */
    method Play(ops: seq<Op>) returns (ghost trace: seq<System>)
      requires Valid()
      modifies this
      ensures Valid() && Trace(trace, ops) && trace[0] == old(Now()) && trace[|ops|] == Now()
      ensures forall k: nat, a: nat, b: nat :: Lasting(trace, ops, k, a, b) ==> InOrder(trace, ops, k, a, b)
      ensures forall k: nat, t: nat, n: nat :: Staying(rounds, k, t, n) ==> Chosen(rounds, k, t, n)
      ensures SleepsWell(trace, ops)
    {
      trace := [Now()];
      for k := 0 to |ops|
        invariant Valid() && |trace| == k + 1 && trace[0] == old(Now()) && trace[k] == Now()
        invariant Trace(trace, ops[..k]) && AllSteady(trace)
      {
        Do(ops[k]);
        trace := trace + [Now()];
        assert Step(trace[k], ops[..k + 1][k], trace[k + 1]);
        assert Steady(Now());
      }
      assert ops[..|ops|] == ops;
      AlwaysInOrder(trace, ops);
      AlwaysSleepsWell(trace, ops);
      OpenLog(rounds, cursor);
      AlwaysFair(rounds);
    }

    method Do(op: Op)
      requires Valid()
      modifies this
      ensures Valid() && Step(old(Now()), op, Now())
    {
      match op
      case Run(now, script) => var r, selected := RunReadyOnce(now, script);
      case More(script) => if current >= 0 { var r, back := Resume(script); }
      case Key(slot, key) => if key < 256 { var r := AppInput(slot, key); }
      case Focus(appId) => SetActive(appId);
      case Stop(slot) => if current < 0 && slot < SLOTS { Release(slot); }
      case Start(slot, app, isolated, scripts) => Begin(slot, app, isolated, scripts);
    }

    method Begin(slot: nat, app: Process, isolated: bool, scripts: seq<seq<Event>>)
      requires Valid()
      modifies this
      ensures Valid() && Step(old(Now()), Start(slot, app, isolated, scripts), Now())
    {
      if current < 0 && FIRST_APP <= slot < SLOTS && ps[slot].state.Unused? && Loaded(app) && |scripts| >= 32 {
        var r := Launch(slot, app, isolated, scripts);
      }
    }
  }

  /** The entry points of the process system, with the user events that happen meanwhile. */
  datatype Op =
    | Run(now: nat, script: seq<Event>)
    | More(script: seq<Event>)
    | Key(slot: nat, key: nat)
    | Focus(appId: nat)
    | Stop(slot: nat)
    | Start(slot: nat, app: Process, isolated: bool, scripts: seq<seq<Event>>)

  /** The state of the process system, with the keys of each slot and the rounds so far. */
  datatype System = System(
    ps: seq<Process>, hs: seq<History>, current: int, configured: nat, cursor: nat, focused: nat, preemption: bool,
    rounds: seq<Round>)

  /** What one entry point may do. */
  ghost predicate Step(s: System, op: Op, s': System) {
    match op
    case Run(now, script) =>
      if s.current >= 0 then s' == s
      else
        exists selected: int ::
          s.configured <= |s.ps| && Choice(WokenAll(s.ps, now), s.cursor, s.configured, selected) &&
          s' == RoundDone(s, now, selected, script)
    case More(script) =>
      if 0 <= s.current < |s.ps| == |s.hs| && Fine(s.ps[s.current]) then
        var (p, action) := Outcome(s.ps[s.current], script, s.preemption);
        var h := Delivered(s.hs[s.current], Taken(s.ps[s.current], script, s.preemption));
        s' == s.(ps := s.ps[s.current := p], hs := s.hs[s.current := h],
                 current := if action.Return? then s.current else -1)
      else s' == s
    case Key(slot, key) => s' == s.(ps := KeyGiven(s.ps, slot, key), hs := KeyKept(s.hs, s.ps, slot, key))
    case Focus(appId) => s' == s.(ps := FocusedAll(s.ps, appId, s.configured), focused := appId)
    case Stop(slot) =>
      s' == if MayStop(s, slot) then s.(ps := s.ps[slot := Empty()], hs := s.hs[slot := NO_HISTORY]) else s
    case Start(slot, app, isolated, scripts) =>
      s' == if MayStart(s, slot, app, scripts) then Started(s, slot, app, isolated, scripts) else s
  }

  function RoundDone(s: System, now: nat, selected: int, script: seq<Event>): System {
    var r := RoundOf(s.ps, now, s.cursor, s.configured, selected, script, s.preemption);
    s.(ps := r.after, hs := TurnKept(s.hs, r.before, selected, script, s.preemption),
       current := Holder(r.before, selected, script, s.preemption),
       cursor := NextCursor(s.cursor, selected, s.configured), rounds := s.rounds + [r])
  }

  predicate MayStop(s: System, slot: nat) { s.current < 0 && slot < |s.ps| == |s.hs| }

  predicate MayStart(s: System, slot: nat, app: Process, scripts: seq<seq<Event>>) {
    MayStop(s, slot) && FIRST_APP <= slot && s.ps[slot].state.Unused? && Loaded(app) && |scripts| >= 32
  }

  function Started(s: System, slot: nat, app: Process, isolated: bool, scripts: seq<seq<Event>>): System
    requires MayStart(s, slot, app, scripts)
  {
    var n := if s.configured <= slot then slot + 1 else s.configured;
    var (p, back) := Settled(app, scripts, 0, s.preemption);
    if isolated then
      var h := Delivered(NO_HISTORY, SettledKeys(app, scripts, 0, s.preemption));
      s.(ps := s.ps[slot := p], hs := s.hs[slot := h], configured := n, current := if back then -1 else slot)
    else s.(ps := s.ps[slot := Empty()], hs := s.hs[slot := NO_HISTORY], configured := n, current := -1)
  }

  /** The states of a run, one more than its operations. */
  ghost predicate Trace(trace: seq<System>, ops: seq<Op>) {
    |trace| == |ops| + 1 && forall i :: 0 <= i < |ops| ==> Step(trace[i], ops[i], trace[i + 1])
  }

  // --------------------------------------------------------------------- keys over a run

  ghost predicate Steady(s: System) { Sound(s.ps, s.hs, s.current, s.configured) }

  ghost predicate AllSteady(trace: seq<System>) { forall i :: 0 <= i < |trace| ==> Steady(trace[i]) }

  /** The key that a step puts into the ring of slot `k`. */
  function KeysIn(s: System, op: Op, k: nat): seq<nat> {
    if op.Key? && op.slot == k && Accepts(s.ps, k, op.key) then [op.key] else []
  }

  /** The keys that the program in slot `k` gets from its ring in a step. */
  function KeysOut(s: System, op: Op, s': System, k: nat): seq<nat> {
    match op
    case Run(now, script) =>
      var n := |s.rounds|;
      if s.current < 0 && n < |s'.rounds| && s'.rounds[n].selected == k < |s.ps| && Fine(Woken(s.ps[k], now))
      then RanKeys(Woken(s.ps[k], now), script, s.preemption) else []
    case More(script) =>
      if s.current == k < |s.ps| && Fine(s.ps[k]) then Taken(s.ps[k], script, s.preemption) else []
    case _ => []
  }

  /** A step ends the life of the program in slot `k` or begins one. */
  predicate Renews(s: System, op: Op, k: nat) {
    match op
    case Stop(slot) => slot == k && MayStop(s, k)
    case Start(slot, app, isolated, scripts) => slot == k && MayStart(s, k, app, scripts)
    case _ => false
  }

  lemma StepKeys(s: System, op: Op, s': System, k: nat)
    requires Steady(s) && Steady(s') && Step(s, op, s') && k < SLOTS && !Renews(s, op, k)
    ensures s'.hs[k] == History(s.hs[k].accepted + KeysIn(s, op, k), s.hs[k].polled + KeysOut(s, op, s', k))
  {
    var h := s.hs[k];
    assert h == History(h.accepted + [], h.polled + []);
    assert Fine(s.ps[k]) by { assert SlotOk(s.ps[k], s.hs[k], k, s.current); }
    if op.Run? && s.current < 0 {
      var selected: int :|
        s.configured <= |s.ps| && Choice(WokenAll(s.ps, op.now), s.cursor, s.configured, selected) &&
        s' == RoundDone(s, op.now, selected, op.script);
      assert s'.rounds[|s.rounds|].selected == selected;
    }
  }

  /** The keys that went into the ring of slot `k` in the steps from `a` to `b`. */
  ghost function AllIn(trace: seq<System>, ops: seq<Op>, k: nat, a: nat, b: nat): seq<nat>
    requires a <= b <= |ops| < |trace|
    decreases b
  {
    if a == b then [] else AllIn(trace, ops, k, a, b - 1) + KeysIn(trace[b - 1], ops[b - 1], k)
  }

  /** The keys that the program in slot `k` got in those steps. */
  ghost function AllOut(trace: seq<System>, ops: seq<Op>, k: nat, a: nat, b: nat): seq<nat>
    requires a <= b <= |ops| < |trace|
    decreases b
  {
    if a == b then [] else AllOut(trace, ops, k, a, b - 1) + KeysOut(trace[b - 1], ops[b - 1], trace[b], k)
  }

  /** The program in slot `k` lives from state `a` to state `b` of a run. */
  ghost predicate Lasting(trace: seq<System>, ops: seq<Op>, k: nat, a: nat, b: nat) {
    && k < SLOTS && a <= b <= |ops| < |trace|
    && forall t :: a <= t < b ==> !Renews(trace[t], ops[t], k)
  }

  /** What waited and what was accepted is, in order, what was polled and what waits; the history says the same. */
  ghost predicate InOrder(trace: seq<System>, ops: seq<Op>, k: nat, a: nat, b: nat)
    requires a <= b <= |ops| < |trace|
  {
    var s, s', given, got := trace[a], trace[b], AllIn(trace, ops, k, a, b), AllOut(trace, ops, k, a, b);
    && k < |s.ps| == |s.hs| && k < |s'.ps| == |s'.hs| && Fine(s.ps[k]) && Fine(s'.ps[k])
    && Keys(s.ps[k]) + given == got + Keys(s'.ps[k])
    && s'.hs[k] == History(s.hs[k].accepted + given, s.hs[k].polled + got)
    && s'.hs[k].accepted == s'.hs[k].polled + Keys(s'.ps[k])
  }

  /** Step number `t` of a run changes the history of slot `k` by the keys that go in and out. */
  ghost predicate Moves(trace: seq<System>, ops: seq<Op>, k: nat, t: nat)
    requires t < |ops| < |trace| && k < |trace[t].hs| && k < |trace[t + 1].hs|
  {
    trace[t + 1].hs[k] == History(trace[t].hs[k].accepted + KeysIn(trace[t], ops[t], k),
                                  trace[t].hs[k].polled + KeysOut(trace[t], ops[t], trace[t + 1], k))
  }

  lemma {:induction false} KeysAlong(trace: seq<System>, ops: seq<Op>, k: nat, a: nat, b: nat)
    requires a <= b <= |ops| < |trace| && forall t :: a <= t <= b ==> k < |trace[t].hs|
    requires forall t :: a <= t < b ==> Moves(trace, ops, k, t)
    ensures trace[b].hs[k] == History(trace[a].hs[k].accepted + AllIn(trace, ops, k, a, b),
                                      trace[a].hs[k].polled + AllOut(trace, ops, k, a, b))
    decreases b
  {
    if a < b {
      KeysAlong(trace, ops, k, a, b - 1);
      assert Moves(trace, ops, k, b - 1);
      var h := trace[a].hs[k];
      Regroup(h.accepted, AllIn(trace, ops, k, a, b - 1), KeysIn(trace[b - 1], ops[b - 1], k));
      Regroup(h.polled, AllOut(trace, ops, k, a, b - 1), KeysOut(trace[b - 1], ops[b - 1], trace[b], k));
    }
  }

  lemma Cancel<T>(before: seq<T>, a: seq<T>, b: seq<T>)
    requires before + a == before + b
    ensures a == b
  {
    assert a == (before + a)[|before|..] && b == (before + b)[|before|..];
  }

  /** The history of a slot and its ring. */
  lemma Balance(s: System, k: nat)
    requires Steady(s) && k < SLOTS
    ensures |s.ps| == |s.hs| == SLOTS && Fine(s.ps[k]) && s.hs[k].accepted == s.hs[k].polled + Keys(s.ps[k])
  {
    assert SlotOk(s.ps[k], s.hs[k], k, s.current);
    OpenAccount(s.hs[k], s.ps[k].input, s.ps[k].head, s.ps[k].tail);
  }

  lemma AllMove(trace: seq<System>, ops: seq<Op>, k: nat, a: nat, b: nat)
    requires Trace(trace, ops) && AllSteady(trace) && Lasting(trace, ops, k, a, b)
    ensures forall t :: a <= t <= b ==> k < |trace[t].hs|
    ensures forall t :: a <= t < b ==> Moves(trace, ops, k, t)
  {
    forall t | a <= t <= b ensures k < |trace[t].hs| { assert Steady(trace[t]); }
    forall t | a <= t < b ensures Moves(trace, ops, k, t) {
      assert Steady(trace[t]) && Steady(trace[t + 1]);
      StepKeys(trace[t], ops[t], trace[t + 1], k);
    }
  }

  lemma KeysInOrder(trace: seq<System>, ops: seq<Op>, k: nat, a: nat, b: nat)
    requires Trace(trace, ops) && AllSteady(trace) && Lasting(trace, ops, k, a, b)
    ensures InOrder(trace, ops, k, a, b)
  {
    AllMove(trace, ops, k, a, b);
    KeysAlong(trace, ops, k, a, b);
    assert Steady(trace[a]) && Steady(trace[b]);
    Balance(trace[a], k);
    Balance(trace[b], k);
    var h, given, got := trace[a].hs[k], AllIn(trace, ops, k, a, b), AllOut(trace, ops, k, a, b);
    Level(h, trace[b].hs[k], Keys(trace[a].ps[k]), given, got, Keys(trace[b].ps[k]));
  }

  lemma Level(h: History, h': History, ring: seq<nat>, given: seq<nat>, got: seq<nat>, ring': seq<nat>)
    requires h.accepted == h.polled + ring && h'.accepted == h'.polled + ring'
    requires h' == History(h.accepted + given, h.polled + got)
    ensures ring + given == got + ring'
  {
    Regroup(h.polled, ring, given);
    Regroup(h.polled, got, ring');
    Cancel(h.polled, ring + given, got + ring');
  }

  lemma AlwaysInOrder(trace: seq<System>, ops: seq<Op>)
    requires Trace(trace, ops) && AllSteady(trace)
    ensures forall k: nat, a: nat, b: nat :: Lasting(trace, ops, k, a, b) ==> InOrder(trace, ops, k, a, b)
  {
    forall k: nat, a: nat, b: nat | Lasting(trace, ops, k, a, b) ensures InOrder(trace, ops, k, a, b) {
      KeysInOrder(trace, ops, k, a, b);
    }
  }

  // --------------------------------------------------------------------- sleep over a run

  /** A step gives the process in slot `k` a turn. */
  predicate TurnOf(s: System, op: Op, s': System, k: nat) {
    match op
    case Run(_, _) =>
      s.current < 0 && |s.rounds| < |s'.rounds| && s'.rounds[|s.rounds|].selected == k
    case More(_) => s.current == k
    case _ => false
  }

  /** What a step makes of a process whose life goes on, in slot `k`. */
  function SlotAfter(s: System, op: Op, s': System, k: nat): Process
    requires k < |s.ps| && Fine(s.ps[k])
  {
    var p := s.ps[k];
    match op
    case Run(now, script) =>
      if s.current >= 0 then p
      else if TurnOf(s, op, s', k) then Ran(Woken(p, now), script, s.preemption).0 else Woken(p, now)
    case More(script) => if TurnOf(s, op, s', k) then Outcome(p, script, s.preemption).0 else p
    case Key(slot, key) => if slot == k && Accepts(s.ps, k, key) then Given(p, key) else p
    case Focus(appId) => if FIRST_APP <= k < s.configured then Focused(p, appId) else p
    case _ => p
  }

  lemma RunSlot(s: System, op: Op, s': System, k: nat)
    requires op.Run? && s.current < 0 && k < |s.ps| && Fine(s.ps[k]) && Step(s, op, s')
    ensures k < |s'.ps| && s'.ps[k] == SlotAfter(s, op, s', k)
    ensures TurnOf(s, op, s', k) ==> Woken(s.ps[k], op.now).state.Ready?
  {
    var selected: int :|
      s.configured <= |s.ps| && Choice(WokenAll(s.ps, op.now), s.cursor, s.configured, selected) &&
      s' == RoundDone(s, op.now, selected, op.script);
    assert s'.rounds[|s.rounds|].selected == selected;
  }

  lemma StepSlot(s: System, op: Op, s': System, k: nat)
    requires Steady(s) && Step(s, op, s') && k < SLOTS && !Renews(s, op, k)
    ensures SlotOk(s.ps[k], s.hs[k], k, s.current) && k < |s'.ps| && s'.ps[k] == SlotAfter(s, op, s', k)
  {
    assert SlotOk(s.ps[k], s.hs[k], k, s.current);
    if op.Run? && s.current < 0 { RunSlot(s, op, s', k); }
  }

  /** A wake pass at or after a deadline. */
  predicate Passes(s: System, op: Op, deadline: nat) {
    op.Run? && s.current < 0 && deadline != FOREVER && deadline <= op.now
  }

  /** A step that must wake a process blocked in slot `k`: the deadline is over, or a key comes. */
  predicate Rouses(s: System, op: Op, k: nat, deadline: nat) { Passes(s, op, deadline) || KeysIn(s, op, k) != [] }

  /** The process in slot `k` is blocked in state `a` and gets no turn up to state `b`. */
  ghost predicate Resting(trace: seq<System>, ops: seq<Op>, k: nat, a: nat, b: nat) {
    && Lasting(trace, ops, k, a, b) && k < |trace[a].ps| && trace[a].ps[k].state.Blocked?
    && forall t :: a <= t < b ==> !TurnOf(trace[t], ops[t], trace[t + 1], k)
  }

  /** It is still blocked exactly if nothing had to wake it; otherwise it is ready. Its deadline stays. */
  ghost predicate WokenInTime(trace: seq<System>, ops: seq<Op>, k: nat, a: nat, b: nat)
    requires a <= b <= |ops| < |trace| && k < |trace[a].ps|
  {
    var deadline := trace[a].ps[k].deadline;
    && k < |trace[b].ps| && trace[b].ps[k].deadline == deadline
    && trace[b].ps[k].state == if Quiet(trace, ops, k, a, b, deadline) then Blocked else Ready
  }

  /** None of the steps from `a` to `b` has to wake a process in slot `k` that waits up to a deadline. */
  ghost predicate Quiet(trace: seq<System>, ops: seq<Op>, k: nat, a: nat, b: nat, deadline: nat)
    requires b <= |ops| < |trace|
  {
    forall t :: a <= t < b ==> !Rouses(trace[t], ops[t], k, deadline)
  }

  lemma QuietStep(trace: seq<System>, ops: seq<Op>, k: nat, a: nat, b: nat, deadline: nat)
    requires a < b <= |ops| < |trace|
    ensures Quiet(trace, ops, k, a, b, deadline) <==>
      Quiet(trace, ops, k, a, b - 1, deadline) && !Rouses(trace[b - 1], ops[b - 1], k, deadline)
  {}

  lemma StepRests(s: System, op: Op, s': System, k: nat)
    requires Steady(s) && Steady(s') && Step(s, op, s') && k < SLOTS && !Renews(s, op, k) && !TurnOf(s, op, s', k)
    requires s.ps[k].state in {Ready, Blocked}
    ensures s'.ps[k].deadline == s.ps[k].deadline
    ensures s'.ps[k].state == if s.ps[k].state.Blocked? && !Rouses(s, op, k, s.ps[k].deadline) then Blocked else Ready
  {
    StepSlot(s, op, s', k);
  }

  /** Step number `t` of a run leaves slot `k` asleep, or wakes it, or leaves it ready. */
  ghost predicate Rests(trace: seq<System>, ops: seq<Op>, k: nat, t: nat)
    requires t < |ops| < |trace| && k < |trace[t].ps| && k < |trace[t + 1].ps|
  {
    var p, q := trace[t].ps[k], trace[t + 1].ps[k];
    p.state in {Ready, Blocked} ==>
      && q.deadline == p.deadline
      && q.state == if p.state.Blocked? && !Rouses(trace[t], ops[t], k, p.deadline) then Blocked else Ready
  }

  lemma AllRest(trace: seq<System>, ops: seq<Op>, k: nat, a: nat, b: nat)
    requires Trace(trace, ops) && AllSteady(trace) && Resting(trace, ops, k, a, b)
    ensures forall t :: a <= t <= b ==> k < |trace[t].ps|
    ensures forall t :: a <= t < b ==> Rests(trace, ops, k, t)
  {
    forall t | a <= t <= b ensures k < |trace[t].ps| { assert Steady(trace[t]); }
    forall t | a <= t < b ensures Rests(trace, ops, k, t) {
      var s, s' := trace[t], trace[t + 1];
      assert Steady(s) && Steady(s') && Step(s, ops[t], s') && !TurnOf(s, ops[t], s', k);
      if s.ps[k].state in {Ready, Blocked} { StepRests(s, ops[t], s', k); }
    }
  }

  lemma {:induction false} SleepsAlong(trace: seq<System>, ops: seq<Op>, k: nat, a: nat, b: nat)
    requires a <= b <= |ops| < |trace| && forall t :: a <= t <= b ==> k < |trace[t].ps|
    requires trace[a].ps[k].state.Blocked? && forall t :: a <= t < b ==> Rests(trace, ops, k, t)
    ensures WokenInTime(trace, ops, k, a, b)
    decreases b
  {
    if a < b {
      SleepsAlong(trace, ops, k, a, b - 1);
      assert Rests(trace, ops, k, b - 1);
      QuietStep(trace, ops, k, a, b, trace[a].ps[k].deadline);
    }
  }

  /** No lost wake-up and no early one, over every run. */
  lemma SleepsUntil(trace: seq<System>, ops: seq<Op>, k: nat, a: nat, b: nat)
    requires Trace(trace, ops) && AllSteady(trace) && Resting(trace, ops, k, a, b)
    ensures WokenInTime(trace, ops, k, a, b)
  {
    AllRest(trace, ops, k, a, b);
    SleepsAlong(trace, ops, k, a, b);
  }

  /** An event that a step lets some program make. */
  ghost predicate Makes(op: Op, e: Event) {
    match op
    case Run(_, script) => e in script
    case More(script) => e in script
    case Start(_, _, _, scripts) => exists script :: script in scripts && e in script
    case _ => false
  }

  /** Who is blocked after its events made a wait, with that deadline, when the deadline was still to come. */
  lemma {:induction false} BlockedBy(p: Process, script: seq<Event>, preemption: bool) returns (e: Event)
    requires Fine(p) && !p.state.Blocked? && Outcome(p, script, preemption).0.state.Blocked?
    ensures e in script && e.Wait? && Outcome(p, script, preemption).0.deadline == e.deadline
    ensures e.deadline == FOREVER || e.now < e.deadline
    decreases |script|
  {
    var (q, action) := Turn(p, script[0], preemption);
    TurnParts(p, script[0], preemption);
    if action.Return? {
      e := BlockedBy(q, script[1..], preemption);
    } else {
      e := script[0];
    }
  }

  lemma {:induction false} SettledBy(p: Process, scripts: seq<seq<Event>>, k: nat, preemption: bool) returns (e: Event)
    requires Fine(p) && k <= 32 <= |scripts| && !p.state.Blocked? && Settled(p, scripts, k, preemption).0.state.Blocked?
    ensures e.Wait? && (exists script :: script in scripts && e in script)
    ensures Settled(p, scripts, k, preemption).0.deadline == e.deadline && (e.deadline == FOREVER || e.now < e.deadline)
    decreases 32 - k
  {
    var (q, action) := Ran(p, scripts[k], preemption);
    if q.state.Blocked? {
      e := BlockedBy(p.(state := Running), scripts[k], preemption);
      assert scripts[k] in scripts;
    } else {
      e := SettledBy(q, scripts, k + 1, preemption);
    }
  }

  /** One of the events of a step is a wait with a deadline still to come. */
  ghost predicate Waited(op: Op, deadline: nat) {
    exists e :: Makes(op, e) && e.Wait? && e.deadline == deadline && (deadline == FOREVER || e.now < deadline)
  }

  /** A step puts slot `k` to sleep: it was awake, or had a turn, or begins a life, and is blocked afterwards. */
  ghost predicate PutsToSleep(s: System, op: Op, s': System, k: nat) {
    && k < |s.ps| == |s'.ps| && s'.ps[k].state.Blocked?
    && (!s.ps[k].state.Blocked? || TurnOf(s, op, s', k) || Renews(s, op, k))
  }

  lemma StepSleeps(s: System, op: Op, s': System, k: nat)
    requires Steady(s) && Steady(s') && Step(s, op, s') && k < SLOTS && PutsToSleep(s, op, s', k)
    ensures Waited(op, s'.ps[k].deadline)
  {
    if Renews(s, op, k) {
      StartSleeps(s, op, s', k);
    } else {
      StepSlot(s, op, s', k);
      match op
      case Run(now, script) =>
        var e := BlockedBy(Woken(s.ps[k], now).(state := Running), script, s.preemption);
      case More(script) =>
        var e := BlockedBy(s.ps[k], script, s.preemption);
      case _ =>
    }
  }

  lemma StartSleeps(s: System, op: Op, s': System, k: nat)
    requires Step(s, op, s') && Renews(s, op, k) && k < |s'.ps| && s'.ps[k].state.Blocked?
    ensures Waited(op, s'.ps[k].deadline)
  {
    if op.Start? { var e := SettledBy(op.app, op.scripts, 0, s.preemption); }
  }

  /** Step number `t` of a run puts slot `k` to sleep. */
  ghost predicate FallsAsleep(trace: seq<System>, ops: seq<Op>, k: nat, t: nat) {
    t < |ops| < |trace| && PutsToSleep(trace[t], ops[t], trace[t + 1], k)
  }

  /** Every sleep begins with a wait for its deadline, and ends in time. */
  ghost predicate SleepsWell(trace: seq<System>, ops: seq<Op>) {
    && (forall k: nat, a: nat, b: nat :: Resting(trace, ops, k, a, b) ==> WokenInTime(trace, ops, k, a, b))
    && forall k: nat, t: nat :: FallsAsleep(trace, ops, k, t) ==> Waited(ops[t], trace[t + 1].ps[k].deadline)
  }

  lemma AlwaysSleepsWell(trace: seq<System>, ops: seq<Op>)
    requires Trace(trace, ops) && AllSteady(trace)
    ensures SleepsWell(trace, ops)
  {
    forall k: nat, a: nat, b: nat | Resting(trace, ops, k, a, b) ensures WokenInTime(trace, ops, k, a, b) {
      SleepsUntil(trace, ops, k, a, b);
    }
    forall k: nat, t: nat | FallsAsleep(trace, ops, k, t) ensures Waited(ops[t], trace[t + 1].ps[k].deadline) {
      assert Steady(trace[t]) && Steady(trace[t + 1]) && Step(trace[t], ops[t], trace[t + 1]);
      StepSleeps(trace[t], ops[t], trace[t + 1], k);
    }
  }

  // ----------------------------------------------------------------- ends and presents over a run

  /** A present is never taken back and never older than the one before; who has ended stays as it ended. */
  ghost predicate Advances(p: Process, q: Process) {
    && (p.presentValid ==> q.presentValid && q.sequence >= p.sequence)
    && (p.state in {Exited, Faulted} ==>
        q.state == p.state && q.exitStatus == p.exitStatus && q.faultVector == p.faultVector)
  }

  lemma {:induction false} OutcomeAdvances(p: Process, script: seq<Event>, preemption: bool)
    requires Fine(p) && p.presentValid
    ensures var q := Outcome(p, script, preemption).0; q.presentValid && q.sequence >= p.sequence
    decreases |script|
  {
    if script != [] {
      TurnParts(p, script[0], preemption);
      OutcomeAdvances(Turn(p, script[0], preemption).0, script[1..], preemption);
    }
  }

  lemma StepAdvances(s: System, op: Op, s': System, k: nat)
    requires Steady(s) && Steady(s') && Step(s, op, s') && k < SLOTS && !Renews(s, op, k)
    ensures Advances(s.ps[k], s'.ps[k])
  {
    StepSlot(s, op, s', k);
    if op.Run? && TurnOf(s, op, s', k) {
      RunSlot(s, op, s', k);
      var p := Woken(s.ps[k], op.now).(state := Running);
      if p.presentValid { OutcomeAdvances(p, op.script, s.preemption); }
    } else if op.More? && TurnOf(s, op, s', k) {
      if s.ps[k].presentValid { OutcomeAdvances(s.ps[k], op.script, s.preemption); }
    }
  }

  /** Step number `t` of a run. */
  ghost predicate Moved(trace: seq<System>, k: nat, t: nat)
    requires t + 1 < |trace| && k < |trace[t].ps| && k < |trace[t + 1].ps|
  {
    Advances(trace[t].ps[k], trace[t + 1].ps[k])
  }

  lemma {:induction false} AdvancesAlong(trace: seq<System>, k: nat, a: nat, b: nat)
    requires a <= b < |trace| && (forall t :: a <= t <= b ==> k < |trace[t].ps|)
    requires forall t :: a <= t < b ==> Moved(trace, k, t)
    ensures Advances(trace[a].ps[k], trace[b].ps[k])
    decreases b
  {
    if a < b {
      AdvancesAlong(trace, k, a, b - 1);
      assert Moved(trace, k, b - 1);
    }
  }

  lemma RunAdvances(trace: seq<System>, ops: seq<Op>, k: nat, a: nat, b: nat)
    requires Trace(trace, ops) && AllSteady(trace) && Lasting(trace, ops, k, a, b)
    ensures k < |trace[a].ps| && k < |trace[b].ps| && Advances(trace[a].ps[k], trace[b].ps[k])
  {
    forall t | a <= t <= b ensures k < |trace[t].ps| { assert Steady(trace[t]); }
    forall t | a <= t < b ensures Moved(trace, k, t) {
      assert Steady(trace[t]) && Steady(trace[t + 1]) && Step(trace[t], ops[t], trace[t + 1]);
      StepAdvances(trace[t], ops[t], trace[t + 1], k);
    }
    AdvancesAlong(trace, k, a, b);
  }

  // ------------------------------------------------------------------------- effects

  /** The processes after a key was offered to one of them. */
  function KeyGiven(ps: seq<Process>, slot: nat, key: nat): (r: seq<Process>)
    ensures |r| == |ps|
  {
    if Accepts(ps, slot, key) then ps[slot := Given(ps[slot], key)] else ps
  }

  predicate Accepts(ps: seq<Process>, slot: nat, key: nat) {
    slot < |ps| && Fine(ps[slot]) && 0 < key < 256 && Listening(ps[slot]) && |Keys(ps[slot])| < 31
  }

  /** The keys of each slot after a key was offered to one of them. */
  function KeyKept(hs: seq<History>, ps: seq<Process>, slot: nat, key: nat): (r: seq<History>)
    ensures |r| == |hs|
  {
    if Accepts(ps, slot, key) && slot < |hs| then hs[slot := Accepted(hs[slot], key)] else hs
  }

  /** The processes after keys and changes of focus. */
  function DisturbedAll(ps: seq<Process>, ops: seq<Op>, n: nat): (r: seq<Process>)
    ensures |r| == |ps|
    decreases |ops|
  {
    if ops == [] then ps
    else
      var last := |ops| - 1;
      var before := DisturbedAll(ps, ops[..last], n);
      match ops[last]
      case Key(slot, key) => KeyGiven(before, slot, key)
      case Focus(appId) => FocusedAll(before, appId, n)
      case _ => before
  }

  /** The keys of each slot after keys and changes of focus. */
  function DisturbedKeys(hs: seq<History>, ps: seq<Process>, ops: seq<Op>, n: nat): (r: seq<History>)
    ensures |r| == |hs|
    decreases |ops|
  {
    if ops == [] then hs
    else
      var last := |ops| - 1;
      var before := DisturbedKeys(hs, ps, ops[..last], n);
      match ops[last]
      case Key(slot, key) => KeyKept(before, DisturbedAll(ps, ops[..last], n), slot, key)
      case _ => before
  }

  /** A call of the scheduler: what happens before it, when it comes, and what the chosen program does. */
  datatype Visit = Visit(before: seq<Op>, now: nat, script: seq<Event>)

  /** A key or a change of focus that does not take the focus from `app`. */
  predicate Spares(op: Op, app: nat) { op.Key? || (op.Focus? && (app == 0 || op.appId == app)) }

  predicate Calm(v: Visit, app: nat) { forall op :: op in v.before ==> Spares(op, app) }

  /** Slot `k` belongs to `app` and is eligible. */
  predicate Runnable(ps: seq<Process>, k: nat, app: nat) { k < |ps| && Eligible(ps, k) && ps[k].appId == app }

  /** One of the first `n` rounds from `start` on gave slot `k` a turn. */
  ghost predicate Served(rs: seq<Round>, start: nat, n: nat, k: nat) {
    exists u :: start <= u < |rs| && u < start + n && rs[u].selected == k
  }

  /** What one visit does: keys and changes of focus, then a round. */
  ghost predicate Visited(s: System, v: Visit, s': System) {
    VisitedIn(s, v, s', 3)
  }

  /** Visited, n steps away from its body. */
  ghost predicate VisitedIn(s: System, v: Visit, s': System, n: nat)
    decreases n, s
  {
    if n > 0 then VisitedIn(s, v, s', n - 1)
    else
      exists selected: int, focused: nat ::
        && var ps := DisturbedAll(s.ps, v.before, s.configured);
           s.configured <= |ps| && Choice(WokenAll(ps, v.now), s.cursor, s.configured, selected) &&
           var hs := DisturbedKeys(s.hs, s.ps, v.before, s.configured);
           s' == RoundDone(s.(ps := ps, hs := hs, focused := focused), v.now, selected, v.script)
  }

  lemma OpenVisited(s: System, v: Visit, s': System)
    ensures Visited(s, v, s') <==> VisitedIn(s, v, s', 0)
  {
    assert VisitedIn(s, v, s', 1) == VisitedIn(s, v, s', 0);
    assert VisitedIn(s, v, s', 2) == VisitedIn(s, v, s', 1);
  }

  /** The states between the first visits of a list. */
  ghost predicate Visits(trace: seq<System>, visits: seq<Visit>) {
    0 < |trace| <= |visits| + 1 && forall i :: 0 <= i < |trace| - 1 ==> Visited(trace[i], visits[i], trace[i + 1])
  }

  lemma VisitsMore(trace: seq<System>, visits: seq<Visit>, s: System)
    requires Visits(trace, visits) && |trace| <= |visits| && Visited(trace[|trace| - 1], visits[|trace| - 1], s)
    ensures Visits(trace + [s], visits)
  {
    var more := trace + [s];
    forall i | 0 <= i < |more| - 1 ensures Visited(more[i], visits[i], more[i + 1]) {
      if i < |trace| - 1 { assert Visited(trace[i], visits[i], trace[i + 1]); }
    }
  }

  /** Slot `k` is eligible, and after `t` rounds fewer than `n - t` slots come before it. */
  ghost predicate Near(ps: seq<Process>, cursor: nat, n: nat, k: nat, app: nat, t: nat) {
    k < n && Runnable(ps, k, app) && Distance(cursor, k, n) + t < n
  }

  /** A round that gives slot `k` no turn brings it closer to one. */
  lemma Progress(
    rs: seq<Round>, rs': seq<Round>, start: nat, n: nat, k: nat, ps: seq<Process>, ps': seq<Process>,
    cursor: nat, cursor': nat, app: nat, t: nat)
    requires k < n && |rs| == start + t && rs <= rs' && |rs'| == |rs| + 1
    requires Served(rs, start, n, k) || Near(ps, cursor, n, k, app, t)
    requires Runnable(ps, k, app) && rs'[|rs|].selected != k ==>
      Runnable(ps', k, app) && Distance(cursor', k, n) < Distance(cursor, k, n)
    ensures Served(rs', start, n, k) || Near(ps', cursor', n, k, app, t + 1)
  {
    if Served(rs, start, n, k) {
      var u :| start <= u < |rs| && u < start + n && rs[u].selected == k;
      assert rs'[u] == rs[u];
    } else if rs'[|rs|].selected == k {
      assert start <= |rs| < |rs'|;
    }
  }

  lemma Rewritten<T>(a: seq<T>, b: seq<T>, i: nat, c: seq<T>)
    requires i < |a| == |b| == |c| && b == a[i := b[i]] && c == b[i := c[i]]
    ensures c == a[i := c[i]]
  {}

  /** A process as the loader leaves it, before its first turn. */
  predicate Loaded(p: Process) {
    && p.appId != 0 && p == Fresh(Ready, p.appId, p.capabilities, p.surface)
    && Capabilities.WellFormed(p.capabilities)
  }

  /** What a started application has to be: it has presented and is ready or waiting. */
  predicate Up(p: Process) { p.presentValid && (p.state.Ready? || p.state.Blocked?) }

  /**
  An application after turn number `k` of at most 32: it is left alone once it has presented and waits, or is
  not ready any more. The second part says whether it gave the processor back.
  */
  function Settled(p: Process, scripts: seq<seq<Event>>, k: nat, preemption: bool): (Process, bool)
    requires Fine(p) && k <= 32 <= |scripts|
    decreases 32 - k, |scripts|
  {
    if k == 32 || (p.presentValid && p.state.Blocked?) || !p.state.Ready? then (p, true)
    else
      var (q, action) := Ran(p, scripts[k], preemption);
      if action.Return? then (q, false) else Settled(q, scripts, k + 1, preemption)
  }

  /** The keys the application gets in those turns. */
  function SettledKeys(p: Process, scripts: seq<seq<Event>>, k: nat, preemption: bool): seq<nat>
    requires Fine(p) && k <= 32 <= |scripts|
    decreases 32 - k, |scripts|
  {
    if k == 32 || (p.presentValid && p.state.Blocked?) || !p.state.Ready? then []
    else
      var (q, action) := Ran(p, scripts[k], preemption);
      RanKeys(p, scripts[k], preemption) + if action.Return? then [] else SettledKeys(q, scripts, k + 1, preemption)
  }

  lemma SettledFirst(p: Process, scripts: seq<seq<Event>>, k: nat, preemption: bool, h: History)
    requires Fine(p) && k < 32 <= |scripts|
    ensures (p.presentValid && p.state.Blocked?) || !p.state.Ready? ==>
      Delivered(h, SettledKeys(p, scripts, k, preemption)) == h
    ensures !(p.presentValid && p.state.Blocked?) && p.state.Ready? ==>
      var (q, action) := Ran(p, scripts[k], preemption);
      var h' := Delivered(h, RanKeys(p, scripts[k], preemption));
      Delivered(h, SettledKeys(p, scripts, k, preemption)) ==
        if action.Return? then h' else Delivered(h', SettledKeys(q, scripts, k + 1, preemption))
  {
    var (q, action) := Ran(p, scripts[k], preemption);
    var keys := RanKeys(p, scripts[k], preemption);
    DeliveredTwice(h, keys, if action.Return? then [] else SettledKeys(q, scripts, k + 1, preemption));
    assert keys + [] == keys;
  }

  /** `r` is the first eligible slot from `start` on, going round, or -1 if there is none. */
  ghost predicate Choice(ps: seq<Process>, start: nat, n: nat, r: int)
    requires n <= |ps|
  {
    if r == -1 then forall i :: 0 <= i < n ==> !Eligible(ps, i)
    else
      && 0 <= r < n && Eligible(ps, r)
      && forall i :: 0 <= i < n && Eligible(ps, i) ==> Distance(start, r, n) <= Distance(start, i, n)
  }

  function NextCursor(cursor: nat, selected: int, n: nat): nat {
    if 0 <= selected < n then (selected + 1) % n else cursor
  }

  /** A process that takes keys. */
  predicate Listening(p: Process) { p.active && p.presentValid && (p.state.Ready? || p.state.Blocked?) }

  function Focused(p: Process, appId: nat): Process {
    p.(active := p.appId == appId && Online(p))
  }

  function FocusedAll(ps: seq<Process>, appId: nat, n: nat): (r: seq<Process>)
    ensures |r| == |ps|
  {
    seq(|ps|, i requires 0 <= i < |ps| => if FIRST_APP <= i < n then Focused(ps[i], appId) else ps[i])
  }

  predicate Online(p: Process) {
    p.appId != 0 && p.presentValid && (p.state.Ready? || p.state.Blocked? || p.state.Running?)
  }

  function WokenAll(ps: seq<Process>, now: nat): (r: seq<Process>)
    ensures |r| == |ps| && forall i :: 0 <= i < |ps| ==> r[i] == Woken(ps[i], now)
  {
    seq(|ps|, i requires 0 <= i < |ps| => Woken(ps[i], now))
  }

  /** No lost wake-up: after a wake pass a blocked process has no key and no expired deadline. */
  lemma WakeComplete(ps: seq<Process>, hs: seq<History>, current: int, configured: nat, now: nat, i: nat)
    requires Sound(ps, hs, current, configured) && i < SLOTS && WokenAll(ps, now)[i].state.Blocked?
    ensures Keys(ps[i]) == [] && hs[i].accepted == hs[i].polled && !Expired(ps[i], now) && i >= FIRST_APP
  {
    assert SlotOk(ps[i], hs[i], i, current);
    OpenAccount(hs[i], ps[i].input, ps[i].head, ps[i].tail);
  }

  // --------------------------------------------------------------------- fairness

  /** A round: the processes the scheduler saw, where it started, what it chose, and the processes afterwards. */
  datatype Round = Round(before: seq<Process>, cursor: nat, n: nat, selected: int, after: seq<Process>)

  /** The round that starts with a wake pass and gives the chosen slot a turn. */
  function RoundOf(ps: seq<Process>, now: nat, cursor: nat, n: nat, selected: int, script: seq<Event>,
      preemption: bool): Round {
    var before := WokenAll(ps, now);
    Round(before, cursor, n, selected, TurnTaken(before, selected, script, preemption))
  }

  /** The processes after a turn of the selected one, if one was selected. */
  function TurnTaken(ps: seq<Process>, selected: int, script: seq<Event>, preemption: bool): (r: seq<Process>)
    ensures |r| == |ps| && forall i :: 0 <= i < |ps| && i != selected ==> r[i] == ps[i]
  {
    if 0 <= selected < |ps| && Fine(ps[selected]) then ps[selected := Ran(ps[selected], script, preemption).0] else ps
  }

  /** The keys of each slot after that turn. */
  function TurnKept(hs: seq<History>, ps: seq<Process>, selected: int, script: seq<Event>, preemption: bool):
      (r: seq<History>)
    ensures |r| == |hs|
  {
    if 0 <= selected < |ps| && selected < |hs| && Fine(ps[selected])
    then hs[selected := Delivered(hs[selected], RanKeys(ps[selected], script, preemption))] else hs
  }

  /** Who holds the processor after a turn: nobody, unless the program has not given it back. */
  function Holder(ps: seq<Process>, selected: int, script: seq<Event>, preemption: bool): int {
    if 0 <= selected < |ps| && Fine(ps[selected]) && Ran(ps[selected], script, preemption).1.Return?
    then selected else -1
  }

  /** A choice was made among the eligible slots, and no other slot changed. */
  ghost predicate Proper(r: Round) {
    && r.n <= |r.before| == |r.after| && Choice(r.before, r.cursor, r.n, r.selected)
    && forall i :: 0 <= i < |r.before| && i != r.selected ==> r.after[i] == r.before[i]
  }

  /** The rounds follow each other: each starts behind the choice of the one before. */
  ghost predicate Rounds(rs: seq<Round>) {
    && (forall t :: 0 <= t < |rs| ==> Proper(rs[t]))
    && forall t :: 0 < t < |rs| ==> Ends(rs[..t], rs[t].cursor)
  }

  /** Where the next round starts. */
  ghost predicate Ends(rs: seq<Round>, cursor: nat) {
    rs != [] ==> var r := rs[|rs| - 1]; cursor == NextCursor(r.cursor, r.selected, r.n)
  }

  /** The rounds so far follow each other, and the next one starts at `cursor`. (Folded: n steps away from its body.) */
  ghost predicate Logged(rs: seq<Round>, cursor: nat, n: nat)
    decreases n, |rs|
  {
    if n > 0 then Logged(rs, cursor, n - 1) else Rounds(rs) && Ends(rs, cursor)
  }

  lemma OpenLog(rs: seq<Round>, cursor: nat)
    ensures Logged(rs, cursor, 3) <==> Rounds(rs) && Ends(rs, cursor)
  {
    assert Logged(rs, cursor, 1) == Logged(rs, cursor, 0);
    assert Logged(rs, cursor, 2) == Logged(rs, cursor, 1);
  }

  lemma RoundsMore(rs: seq<Round>, cursor: nat, r: Round)
    requires Logged(rs, cursor, 3) && Proper(r) && r.cursor == cursor
    ensures Logged(rs + [r], NextCursor(cursor, r.selected, r.n), 3)
  {
    OpenLog(rs, cursor);
    OpenLog(rs + [r], NextCursor(cursor, r.selected, r.n));
    var more := rs + [r];
    forall t | 0 < t < |more| ensures Ends(more[..t], more[t].cursor) {
      assert more[..t] == rs[..t];
      if t == |rs| { assert rs[..t] == rs; }
    }
  }

  lemma AlwaysFair(rs: seq<Round>)
    requires Rounds(rs)
    ensures forall k: nat, t: nat, n: nat :: Staying(rs, k, t, n) ==> Chosen(rs, k, t, n)
  {
    forall k: nat, t: nat, n: nat | Staying(rs, k, t, n) ensures Chosen(rs, k, t, n) { Fair(rs, n, k, t); }
  }

  /** Passing over an eligible slot brings the cursor closer to it. */
  lemma Closer(ps: seq<Process>, cursor: nat, n: nat, selected: int, k: nat)
    requires k < n <= |ps| && Choice(ps, cursor, n, selected) && Eligible(ps, k)
    ensures 0 <= selected < n
    ensures selected != k ==> Distance((selected + 1) % n, k, n) < Distance(cursor, k, n)
  {
    var ds, dk := Distance(cursor, selected, n), Distance(cursor, k, n);
    DistanceAt(cursor, selected, n);
    DistanceAt(cursor, k, n);
    if selected != k {
      var c, d := (selected + 1) % n, dk - ds - 1;
      RoundOff(cursor, ds, n);
      RoundOff(cursor, dk, n);
      SmallMod(selected, n);
      RoundOff(selected, 1, n);
      SmallMod(c, n);
      RoundOff(c, d, n);
      DistanceOf(c, d, n);
    }
  }

  lemma {:induction false} FairFrom(rs: seq<Round>, n: nat, k: nat, t: nat, m: nat) returns (u: nat)
    requires Rounds(rs) && k < n && t + m <= |rs| && t < |rs| && Distance(rs[t].cursor, k, n) < m
    requires forall i :: t <= i < t + m ==> Open(rs[i], k, n)
    ensures t <= u < t + m && rs[u].selected == k
    decreases m
  {
    assert Open(rs[t], k, n) && Proper(rs[t]);
    Closer(rs[t].before, rs[t].cursor, n, rs[t].selected, k);
    if rs[t].selected == k { return t; }
    assert Distance((rs[t].selected + 1) % n, k, n) >= 0;
    assert Ends(rs[..t + 1], rs[t + 1].cursor) && rs[..t + 1][t] == rs[t];
    u := FairFrom(rs, n, k, t + 1, m - 1);
  }

  /** Slot `k` of `n` is eligible in a round. */
  ghost predicate Open(r: Round, k: nat, n: nat) { k < n == r.n <= |r.before| && Eligible(r.before, k) }

  /** Slot `k` is eligible in `n` successive rounds over `n` slots. */
  ghost predicate Staying(rs: seq<Round>, k: nat, t: nat, n: nat) {
    k < n && t + n <= |rs| && forall i :: t <= i < t + n ==> Open(rs[i], k, n)
  }

  /** One of those rounds gives slot `k` a turn. */
  ghost predicate Chosen(rs: seq<Round>, k: nat, t: nat, n: nat) {
    exists u :: t <= u < t + n && u < |rs| && rs[u].selected == k
  }

  /** Whatever happens between the rounds, a slot that is eligible in `n` successive rounds is chosen in one of them. */
  lemma Fair(rs: seq<Round>, n: nat, k: nat, t: nat)
    requires Rounds(rs) && Staying(rs, k, t, n)
    ensures Chosen(rs, k, t, n)
  {
    DistanceAt(rs[t].cursor, k, n);
    var u := FairFrom(rs, n, k, t, n);
  }

  /** A process after a wake pass at time `now`. */
  function Woken(p: Process, now: nat): Process {
    if p.state.Blocked? && Expired(p, now) then p.(state := Ready) else p
  }

  /** How far slot `i` is ahead of `start`, going round `n` slots. */
  function Distance(start: nat, i: nat, n: nat): nat
    requires n > 0
  {
    DistanceIn(start, i, n, 3)
  }

  /** Distance, `depth` steps away from its body. */
  function DistanceIn(start: nat, i: nat, n: nat, depth: nat): nat
    requires n > 0
    decreases depth, n
  {
    if depth > 0 then DistanceIn(start, i, n, depth - 1) else (i + n - start % n) % n
  }

  lemma OpenDistance(start: nat, i: nat, n: nat)
    requires n > 0
    ensures Distance(start, i, n) == (i + n - start % n) % n
  {
    assert DistanceIn(start, i, n, 1) == DistanceIn(start, i, n, 0);
    assert DistanceIn(start, i, n, 2) == DistanceIn(start, i, n, 1);
  }

  lemma DistanceAt(start: nat, i: nat, n: nat)
    requires i < n
    ensures Distance(start, i, n) < n && (start + Distance(start, i, n)) % n == i
  {
    OpenDistance(start, i, n);
    var s := start % n;
    assert 0 <= s < n;
    SmallMod(i + n - s, n);
    RoundOff(start, Distance(start, i, n), n);
  }

  lemma SmallMod(x: nat, n: nat)
    requires x < 2 * n
    ensures x % n == if x < n then x else x - n
  {}

  lemma DistanceOf(start: nat, d: nat, n: nat)
    requires d < n
    ensures (start + d) % n < n && Distance(start, (start + d) % n, n) == d
  {
    RoundOff(start, d, n);
    OpenDistance(start, (start + d) % n, n);
    SmallMod((start + d) % n + n - start % n, n);
  }

  /** Adding less than `n` to a number modulo `n`. */
  lemma RoundOff(a: nat, d: nat, n: nat)
    requires d < n
    ensures a % n < n && (a + d) % n == if a % n + d < n then a % n + d else a % n + d - n
  {
    var q, s := a / n, a % n;
    assert a + d == q * n + (s + d);
    if s + d < n {
      ModUnique(a + d, q, s + d, n);
    } else {
      assert a + d == (q + 1) * n + (s + d - n);
      ModUnique(a + d, q + 1, s + d - n, n);
    }
  }

  lemma ModUnique(x: nat, q: nat, r: nat, n: nat)
    requires r < n && x == q * n + r
    ensures x % n == r
  {
    var q', r' := x / n, x % n;
    assert x == q' * n + r';
    if q' > q { MoreMultiples(q, q' - q, n); } else if q' < q { MoreMultiples(q', q - q', n); }
  }

  lemma MoreMultiples(q: nat, k: nat, n: nat)
    requires k >= 1
    ensures (q + k) * n >= q * n + n
  {}
}
