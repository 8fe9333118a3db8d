/**
The single-producer, single-consumer rings of the PS/2 driver: 64 keys and 32 mouse events. Interrupt
handler and consumer interleave at every atomic load and store of head and tail.
*/
module Ps2Ring {
  import opened Rings

  /** Where the producer stands in queue_key, with what it has read so far. */
  datatype Producer<T> =
    | Idle | Started(item: T, head: nat) | Checked(item: T, head: nat) | Full
    | Stored(item: T, head: nat)

  /** Where the consumer stands in dequeue_key. */
  datatype Consumer<T> = Waiting | Loaded(tail: nat) | Ready(tail: nat) | Read(tail: nat, item: T)

  datatype Machine<T> = Machine(
    size: nat, slots: seq<T>, head: nat, tail: nat, dropped: nat, producer: Producer<T>, consumer: Consumer<T>)

  datatype Step<T> =
    | Offer(item: T) | CheckRoom | CountDrop | StoreSlot | PublishHead
    | LoadTail | CheckItem | ReadSlot | PublishTail

  /** The atomic steps; a step that is not the next one of its side changes nothing. */
  function Next<T>(m: Machine<T>, step: Step<T>): Machine<T>
    requires m.head < |m.slots| && m.tail < |m.slots|
    requires m.producer.Checked? ==> m.producer.head < |m.slots|
    requires m.consumer.Ready? ==> m.consumer.tail < |m.slots|
  {
    match step
    case Offer(item) => if m.producer.Idle? then m.(producer := Started(item, m.head)) else m
    case CheckRoom =>
      if !m.producer.Started? then m
      else if After(m.producer.head, m.size) == m.tail then m.(producer := Full)
      else m.(producer := Checked(m.producer.item, m.producer.head))
    case CountDrop => if m.producer.Full? then m.(producer := Idle, dropped := m.dropped + 1) else m
    case StoreSlot =>
      if !m.producer.Checked? then m
      else
        var p := m.producer;
        m.(slots := m.slots[p.head := p.item], producer := Stored(p.item, p.head))
    case PublishHead => if m.producer.Stored? then m.(head := After(m.producer.head, m.size), producer := Idle) else m
    case LoadTail => if m.consumer.Waiting? then m.(consumer := Loaded(m.tail)) else m
    case CheckItem =>
      if !m.consumer.Loaded? then m
      else if m.consumer.tail == m.head then m.(consumer := Waiting)
      else m.(consumer := Ready(m.consumer.tail))
    case ReadSlot => if m.consumer.Ready? then m.(consumer := Read(m.consumer.tail, m.slots[m.consumer.tail])) else m
    case PublishTail => if m.consumer.Read? then m.(tail := After(m.consumer.tail, m.size), consumer := Waiting) else m
  }

  /**
  The history of a run: the items offered, what became of those already decided (kept or dropped), the
  items accepted and the items delivered.
  */
  datatype Log<T> = Log(offered: seq<T>, fates: seq<bool>, accepted: seq<T>, delivered: seq<T>)

  function Record<T>(m: Machine<T>, step: Step<T>, log: Log<T>): Log<T> {
    match step
    case Offer(item) => if m.producer.Idle? then log.(offered := log.offered + [item]) else log
    case CountDrop => if m.producer.Full? then log.(fates := log.fates + [false]) else log
    case PublishHead =>
      if m.producer.Stored?
      then log.(fates := log.fates + [true], accepted := log.accepted + [m.producer.item])
      else log
    case PublishTail => if m.consumer.Read? then log.(delivered := log.delivered + [m.consumer.item]) else log
    case _ => log
  }

  /** The offered items whose fate was to be kept, in order. */
  function Kept<T>(offered: seq<T>, fates: seq<bool>): seq<T>
    requires |fates| <= |offered|
    decreases |fates|
  {
    if fates == [] then []
    else
      var n := |fates| - 1;
      Kept(offered, fates[..n]) + if fates[n] then [offered[n]] else []
  }

  /** How many offered items were dropped. */
  function Lost(fates: seq<bool>): nat
    decreases |fates|
  {
    if fates == [] then 0 else Lost(fates[..|fates| - 1]) + if fates[|fates| - 1] then 0 else 1
  }

  /** An item offered later does not change what was kept before. */
  lemma {:induction false} KeptOffer<T>(offered: seq<T>, fates: seq<bool>, item: T)
    requires |fates| <= |offered|
    ensures Kept(offered + [item], fates) == Kept(offered, fates)
    decreases |fates|
  {
    if fates != [] { KeptOffer(offered, fates[..|fates| - 1], item); }
  }

  lemma KeptDecided<T>(offered: seq<T>, fates: seq<bool>, fate: bool)
    requires |fates| < |offered|
    ensures Kept(offered, fates + [fate]) == Kept(offered, fates) + if fate then [offered[|fates|]] else []
    ensures Lost(fates + [fate]) == Lost(fates) + if fate then 0 else 1
  {
    assert (fates + [fate])[..|fates|] == fates;
  }

  /** Each side's copy of its own index is current, and what it has checked or stored still holds. */
  ghost predicate Consistent<T>(m: Machine<T>) {
    && m.size == |m.slots| && m.size >= 2 && m.head < m.size && m.tail < m.size
    && (m.producer.Started? ==> m.producer.head == m.head)
    && (m.producer.Checked? ==> m.producer.head == m.head && After(m.head, m.size) != m.tail)
    && (m.producer.Stored? ==>
          m.producer.head == m.head && After(m.head, m.size) != m.tail && m.slots[m.head] == m.producer.item)
    && (m.consumer.Loaded? ==> m.consumer.tail == m.tail)
    && (m.consumer.Ready? ==> m.consumer.tail == m.tail && m.tail != m.head)
    && (m.consumer.Read? ==> m.consumer.tail == m.tail && m.tail != m.head && m.consumer.item == m.slots[m.tail])
  }

  /** Accepted is delivered plus what is in the ring. */
  ghost predicate Carried<T>(m: Machine<T>, log: Log<T>)
    requires Consistent(m)
  {
    log.accepted == log.delivered + Between(m.slots, m.head, m.tail)
  }

  /** Accepted is what was offered without the dropped items; only the item under way is undecided. */
  ghost predicate Accounted<T>(producer: Producer<T>, dropped: nat, log: Log<T>) {
    && |log.offered| == |log.fates| + (if producer.Idle? then 0 else 1)
    && log.accepted == Kept(log.offered, log.fates) && dropped == Lost(log.fates)
    && (producer.Started? || producer.Checked? || producer.Stored? ==> producer.item == log.offered[|log.fates|])
  }

  /** The invariant of the protocol. */
  ghost predicate Invariant<T>(m: Machine<T>, log: Log<T>) {
    Consistent(m) && Carried(m, log) && Accounted(m.producer, m.dropped, log)
  }

  /** A step of the producer or of the consumer keeps every index and every stored item current. */
  lemma StepConsistent<T>(m: Machine<T>, step: Step<T>)
    requires Consistent(m)
    ensures Consistent(Next(m, step)) && Next(m, step).size == m.size
  {}

  lemma StepAccounts<T>(m: Machine<T>, log: Log<T>, step: Step<T>)
    requires Consistent(m) && Accounted(m.producer, m.dropped, log)
    ensures Accounted(Next(m, step).producer, Next(m, step).dropped, Record(m, step, log))
  {
    match step
    case Offer(item) => KeptOffer(log.offered, log.fates, item);
    case CountDrop => if m.producer.Full? { KeptDecided(log.offered, log.fates, false); }
    case PublishHead => if m.producer.Stored? { KeptDecided(log.offered, log.fates, true); }
    case _ =>
  }

  lemma PublishCarries<T>(m: Machine<T>, log: Log<T>)
    requires Consistent(m) && Consistent(Next(m, PublishHead)) && Carried(m, log) && m.producer.Stored?
    ensures Carried(Next(m, PublishHead), Record(m, PublishHead, log))
  {
    Publish(m.slots, m.head, m.tail);
    var item := m.slots[m.head];
    assert log.delivered + (Between(m.slots, m.head, m.tail) + [item]) == log.accepted + [item];
  }

  lemma TakeCarries<T>(m: Machine<T>, log: Log<T>)
    requires Consistent(m) && Consistent(Next(m, PublishTail)) && Carried(m, log) && m.consumer.Read?
    ensures Carried(Next(m, PublishTail), Record(m, PublishTail, log))
  {
    Take(m.slots, m.head, m.tail);
    var rest := Between(m.slots, m.head, After(m.tail, m.size));
    assert log.delivered + ([m.slots[m.tail]] + rest) == log.delivered + [m.slots[m.tail]] + rest;
  }

  lemma StepCarries<T>(m: Machine<T>, log: Log<T>, step: Step<T>)
    requires Consistent(m) && Consistent(Next(m, step)) && Carried(m, log)
    ensures Carried(Next(m, step), Record(m, step, log))
  {
    match step
    case StoreSlot => if m.producer.Checked? { Unpublished(m.slots, m.head, m.tail, m.producer.item); }
    case PublishHead => if m.producer.Stored? { PublishCarries(m, log); }
    case PublishTail => if m.consumer.Read? { TakeCarries(m, log); }
    case _ =>
  }

  /** One step by either side keeps all that, whatever the other side is doing. */
  lemma StepKeeps<T>(m: Machine<T>, log: Log<T>, step: Step<T>)
    requires Invariant(m, log)
    ensures Invariant(Next(m, step), Record(m, step, log)) && Next(m, step).size == m.size
  {
    StepConsistent(m, step);
    StepAccounts(m, log, step);
    StepCarries(m, log, step);
  }

  /** The state and the log after a run of steps. */
  ghost function Run<T>(m: Machine<T>, log: Log<T>, steps: seq<Step<T>>): (r: (Machine<T>, Log<T>))
    requires Invariant(m, log)
    ensures Invariant(r.0, r.1) && r.0.size == m.size
    decreases |steps|
  {
    if steps == [] then (m, log)
    else
      StepKeeps(m, log, steps[0]);
      Run(Next(m, steps[0]), Record(m, steps[0], log), steps[1..])
  }

  function Begin<T>(slots: seq<T>): Machine<T> { Machine(|slots|, slots, 0, 0, 0, Idle, Waiting) }

  function NoLog<T>(): Log<T> { Log([], [], [], []) }

  /**
  Under every interleaving the accepted items are the offered ones without the dropped, in order, and only
  the item under way is undecided; what was delivered is a prefix of what was accepted; at most size - 1
  items wait.
  */
  lemma EveryInterleaving<T>(slots: seq<T>, steps: seq<Step<T>>)
    requires |slots| >= 2
    ensures Invariant(Begin(slots), NoLog())
    ensures
      var r := Run(Begin(slots), NoLog(), steps);
      var log := r.1;
      && |log.fates| <= |log.offered| <= |log.fates| + 1 && (r.0.producer.Idle? ==> |log.fates| == |log.offered|)
      && log.accepted == Kept(log.offered, log.fates) && r.0.dropped == Lost(log.fates)
      && log.delivered <= log.accepted && |log.accepted| - |log.delivered| <= |slots| - 1
  {
    var r := Run(Begin(slots), NoLog(), steps);
    assert |Between(r.0.slots, r.0.head, r.0.tail)| <= |slots| - 1;
  }

  /** A key is dropped only while the ring was full: it held size - 1 items when the producer looked. */
  lemma DropsOnlyWhenFull<T>(m: Machine<T>)
    requires Consistent(m) && m.producer.Started? && Next(m, CheckRoom).producer.Full?
    ensures |Between(m.slots, m.head, m.tail)| == m.size - 1
  {}
}
