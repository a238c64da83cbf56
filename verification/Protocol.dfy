/** The producer/consumer program of cygwin/examples/test6.c as a transition
    system. A state holds the shared buffer, the owner of the mutex and the
    program point of every thread; a step is what one thread does between two
    points at which another thread may run. */
module Protocol {
  import opened RingBuffer

  /** BUFFER_SIZE, PRODUCER_COUNT, CONSUMER_COUNT and ITEMS_PER_PRODUCER. */
  datatype Config = Config(bufferSize: nat, producerCount: nat, consumerCount: nat, itemsPerProducer: nat)

  ghost predicate ValidConfig(c: Config) {
    1 <= c.bufferSize && 1 <= c.producerCount && 1 <= c.consumerCount && 1 <= c.itemsPerProducer
  }

  /** Program points of `producer_thread`. `Testing(woken)` is the loop test on
      `count`; `woken` records that the thread came there out of the wait. */
  datatype ProducerPc =
    | Preparing              // at the head of the for loop, mutex not held
    | Wanting                // in pthread_mutex_lock
    | Testing(woken: bool)   // holds the mutex, about to test for a full buffer
    | Blocked                // in pthread_cond_wait(&not_full), mutex released
    | Woken                  // unblocked, must take the mutex again
    | Signalling             // has pushed, about to signal not_empty
    | Unlocking              // about to release the mutex
    | Exited

  /** A producer and its loop variable `i`. */
  datatype Producer = Producer(pc: ProducerPc, i: nat)

  /** Program points of `consumer_thread`. */
  datatype ConsumerPc =
    | Wanting
    | Testing(woken: bool)   // holds the mutex, about to test for an empty buffer
    | Blocked                // in pthread_cond_timedwait(&not_empty)
    | Woken
    | Signalling             // has popped, about to signal not_full
    | Unlocking
    | Processing             // outside the critical section
    | Leaving                // saw the flag on an empty buffer, about to unlock and return
    | Exited

  datatype MainPc =
    | JoiningProducers(k: nat)
    | WantingMutex
    | SettingFlag
    | Broadcasting
    | UnlockingMutex
    | JoiningConsumers(k: nat)
    | Done

  datatype Owner = Free | ByProducer(p: nat) | ByConsumer(q: nat) | ByMain

  /** What a producer pushes: its `i`-th value, for the producer at index `producer`. */
  datatype Item = Item(producer: nat, index: nat)

  /** producer_id is the index plus one. */
  function Value(item: Item): int {
    (item.producer + 1) * 100 + item.index
  }

  /** `pushed` and `popped` record the whole history of the buffer. */
  datatype State = State(
    ring: Ring,
    finished: bool,
    owner: Owner,
    producers: seq<Producer>,
    consumers: seq<ConsumerPc>,
    main: MainPc,
    pushed: seq<Item>,
    popped: seq<int>
  )

  datatype Step =
    | Prepare(p: nat)
    | LockByProducer(p: nat)
    | TestFull(p: nat)
    | SignalNotEmpty(p: nat, woken: set<nat>)
    | UnlockByProducer(p: nat)
    | LockByConsumer(q: nat)
    | TestEmpty(q: nat)
    | SignalNotFull(q: nat, woken: set<nat>)
    | UnlockByConsumer(q: nat)
    | Process(q: nat)
    | Leave(q: nat)
    | JoinProducer
    | LockByMain
    | SetFinished
    | Broadcast
    | UnlockByMain
    | JoinConsumer
    | SpuriousProducer(p: nat)
    | SpuriousConsumer(q: nat)
    | TimeOut(q: nat)

  /** The steps that no thread of the program brings about. */
  predicate External(step: Step) {
    step.SpuriousProducer? || step.SpuriousConsumer? || step.TimeOut?
  }

  function Init(c: Config): State {
    State(Empty(c.bufferSize), false, Free,
          seq(c.producerCount, _ => Producer(Preparing, 0)),
          seq(c.consumerCount, _ => ConsumerPc.Wanting),
          JoiningProducers(0), [], [])
  }

  ghost predicate WellFormed(c: Config, s: State) {
    && ValidConfig(c)
    && |s.ring.values| == c.bufferSize
    && InBounds(s.ring)
    && |s.producers| == c.producerCount
    && |s.consumers| == c.consumerCount
    && (s.main.JoiningProducers? ==> s.main.k < c.producerCount)
    && (s.main.JoiningConsumers? ==> s.main.k < c.consumerCount)
  }

  function BlockedProducers(s: State): set<nat> {
    set p: nat | p < |s.producers| && s.producers[p].pc.Blocked?
  }

  function BlockedConsumers(s: State): set<nat> {
    set q: nat | q < |s.consumers| && s.consumers[q].Blocked?
  }

  /** pthread_cond_signal unblocks at least one of the threads blocked on the
      condition variable, if there are any; which ones is up to the scheduler. */
  predicate SignalMayWake(blocked: set<nat>, woken: set<nat>) {
    woken <= blocked && (blocked != {} ==> woken != {})
  }

  predicate ProducerAt(s: State, p: nat, pc: ProducerPc) {
    p < |s.producers| && s.producers[p].pc == pc
  }

  predicate ConsumerAt(s: State, q: nat, pc: ConsumerPc) {
    q < |s.consumers| && s.consumers[q] == pc
  }

  predicate Enabled(s: State, step: Step) {
    match step
    case Prepare(p) => ProducerAt(s, p, Preparing)
    case LockByProducer(p) =>
      s.owner == Free && (ProducerAt(s, p, ProducerPc.Wanting) || ProducerAt(s, p, ProducerPc.Woken))
    case TestFull(p) => p < |s.producers| && s.producers[p].pc.Testing?
    case SignalNotEmpty(p, woken) =>
      ProducerAt(s, p, ProducerPc.Signalling) && SignalMayWake(BlockedConsumers(s), woken)
    case UnlockByProducer(p) => ProducerAt(s, p, ProducerPc.Unlocking)
    case LockByConsumer(q) =>
      s.owner == Free && (ConsumerAt(s, q, ConsumerPc.Wanting) || ConsumerAt(s, q, ConsumerPc.Woken))
    case TestEmpty(q) => q < |s.consumers| && s.consumers[q].Testing?
    case SignalNotFull(q, woken) =>
      ConsumerAt(s, q, ConsumerPc.Signalling) && SignalMayWake(BlockedProducers(s), woken)
    case UnlockByConsumer(q) => ConsumerAt(s, q, ConsumerPc.Unlocking)
    case Process(q) => ConsumerAt(s, q, Processing)
    case Leave(q) => ConsumerAt(s, q, Leaving)
    case JoinProducer => s.main.JoiningProducers? && ProducerAt(s, s.main.k, ProducerPc.Exited)
    case LockByMain => s.main == WantingMutex && s.owner == Free
    case SetFinished => s.main == SettingFlag
    case Broadcast => s.main == Broadcasting
    case UnlockByMain => s.main == UnlockingMutex
    case JoinConsumer => s.main.JoiningConsumers? && ConsumerAt(s, s.main.k, ConsumerPc.Exited)
    case SpuriousProducer(p) => ProducerAt(s, p, ProducerPc.Blocked)
    case SpuriousConsumer(q) => ConsumerAt(s, q, ConsumerPc.Blocked)
    case TimeOut(q) => ConsumerAt(s, q, ConsumerPc.Blocked)
  }

  // ---- the effect of a step ----

  function SetProducer(s: State, p: nat, pc: ProducerPc): State
    requires p < |s.producers|
  {
    s.(producers := s.producers[p := s.producers[p].(pc := pc)])
  }

  function SetConsumer(s: State, q: nat, pc: ConsumerPc): State
    requires q < |s.consumers|
  {
    s.(consumers := s.consumers[q := pc])
  }

  function WakeProducers(ps: seq<Producer>, woken: set<nat>): seq<Producer> {
    seq(|ps|, k requires 0 <= k < |ps| => if k in woken then ps[k].(pc := ProducerPc.Woken) else ps[k])
  }

  function WakeConsumers(qs: seq<ConsumerPc>, woken: set<nat>): seq<ConsumerPc> {
    seq(|qs|, k requires 0 <= k < |qs| => if k in woken then ConsumerPc.Woken else qs[k])
  }

  /** The loop guard of the producer: another item, or return. */
  function DoPrepare(c: Config, s: State, p: nat): State
    requires p < |s.producers|
  {
    SetProducer(s, p, if s.producers[p].i < c.itemsPerProducer then ProducerPc.Wanting else ProducerPc.Exited)
  }

  /** On a full buffer the wait releases the mutex and blocks in one step;
      otherwise the producer pushes the value it prepared. */
  function DoTestFull(c: Config, s: State, p: nat): State
    requires p < |s.producers| && InBounds(s.ring)
  {
    if s.ring.count == c.bufferSize then
      SetProducer(s, p, ProducerPc.Blocked).(owner := Free)
    else
      var item := Item(p, s.producers[p].i);
      SetProducer(s, p, ProducerPc.Signalling).(ring := Push(s.ring, Value(item)), pushed := s.pushed + [item])
  }

  /** Releasing the mutex ends the loop body: `i` is incremented. */
  function DoUnlockByProducer(s: State, p: nat): State
    requires p < |s.producers|
  {
    s.(producers := s.producers[p := Producer(Preparing, s.producers[p].i + 1)], owner := Free)
  }

  /** On an empty buffer the consumer leaves if production has finished and
      blocks otherwise; on a non-empty one it pops. */
  function DoTestEmpty(s: State, q: nat): State
    requires q < |s.consumers| && InBounds(s.ring)
  {
    if s.ring.count == 0 then
      if s.finished then SetConsumer(s, q, Leaving)
      else SetConsumer(s, q, ConsumerPc.Blocked).(owner := Free)
    else
      SetConsumer(s, q, ConsumerPc.Signalling).(ring := Pop(s.ring), popped := s.popped + [Front(s.ring)])
  }

  function Apply(c: Config, s: State, step: Step): (s': State)
    requires WellFormed(c, s) && Enabled(s, step)
    ensures WellFormed(c, s')
  {
    match step
    case Prepare(p) => DoPrepare(c, s, p)
    case LockByProducer(p) =>
      SetProducer(s, p, ProducerPc.Testing(s.producers[p].pc.Woken?)).(owner := ByProducer(p))
    case TestFull(p) => DoTestFull(c, s, p)
    case SignalNotEmpty(p, woken) =>
      SetProducer(s, p, ProducerPc.Unlocking).(consumers := WakeConsumers(s.consumers, woken))
    case UnlockByProducer(p) => DoUnlockByProducer(s, p)
    case LockByConsumer(q) =>
      SetConsumer(s, q, ConsumerPc.Testing(s.consumers[q].Woken?)).(owner := ByConsumer(q))
    case TestEmpty(q) => DoTestEmpty(s, q)
    case SignalNotFull(q, woken) =>
      SetConsumer(s, q, ConsumerPc.Unlocking).(producers := WakeProducers(s.producers, woken))
    case UnlockByConsumer(q) => SetConsumer(s, q, Processing).(owner := Free)
    case Process(q) => SetConsumer(s, q, ConsumerPc.Wanting)
    case Leave(q) => SetConsumer(s, q, ConsumerPc.Exited).(owner := Free)
    case JoinProducer =>
      s.(main := if s.main.k + 1 < c.producerCount then JoiningProducers(s.main.k + 1) else WantingMutex)
    case LockByMain => s.(main := SettingFlag, owner := ByMain)
    case SetFinished => s.(main := Broadcasting, finished := true)
    case Broadcast => s.(main := UnlockingMutex, consumers := WakeConsumers(s.consumers, BlockedConsumers(s)))
    case UnlockByMain => s.(main := JoiningConsumers(0), owner := Free)
    case JoinConsumer =>
      s.(main := if s.main.k + 1 < c.consumerCount then JoiningConsumers(s.main.k + 1) else Done)
    case SpuriousProducer(p) => SetProducer(s, p, ProducerPc.Woken)
    case SpuriousConsumer(q) => SetConsumer(s, q, ConsumerPc.Woken)
    case TimeOut(q) => SetConsumer(s, q, ConsumerPc.Woken)
  }

  /** The steps lead from `s` to `t`, each enabled where it is taken. */
  ghost predicate Path(c: Config, s: State, steps: seq<Step>, t: State)
    requires WellFormed(c, s)
    decreases |steps|
  {
    if steps == [] then s == t
    else Enabled(s, steps[0]) && Path(c, Apply(c, s, steps[0]), steps[1..], t)
  }

  /** Some interleaving of the threads leads to `s`. */
  ghost predicate Reachable(c: Config, s: State) {
    ValidConfig(c) && exists steps :: Path(c, Init(c), steps, s)
  }
}
