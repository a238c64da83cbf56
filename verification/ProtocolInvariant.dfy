/** The inductive invariant of the producer/consumer protocol, part by part,
    and its preservation by every step. */
module ProtocolInvariant {
  import opened RingBuffer
  import opened Protocol
  import opened Sums

  // ---- mutual exclusion ----

  predicate ProducerHolds(pc: ProducerPc) {
    pc.Testing? || pc.Signalling? || pc.Unlocking?
  }

  predicate ConsumerHolds(pc: ConsumerPc) {
    pc.Testing? || pc.Signalling? || pc.Unlocking? || pc.Leaving?
  }

  predicate MainHolds(pc: MainPc) {
    pc.SettingFlag? || pc.Broadcasting? || pc.UnlockingMutex?
  }

  /** Exactly the recorded owner is inside its critical section. */
  ghost predicate MutualExclusion(s: State) {
    && (forall p: nat | p < |s.producers| :: ProducerHolds(s.producers[p].pc) <==> s.owner == ByProducer(p))
    && (forall q: nat | q < |s.consumers| :: ConsumerHolds(s.consumers[q]) <==> s.owner == ByConsumer(q))
    && (MainHolds(s.main) <==> s.owner == ByMain)
    && (s.owner.ByProducer? ==> s.owner.p < |s.producers|)
    && (s.owner.ByConsumer? ==> s.owner.q < |s.consumers|)
  }

  // ---- the buffer is a FIFO queue between the two histories ----

  function Values(items: seq<Item>): seq<int> {
    seq(|items|, k requires 0 <= k < |items| => Value(items[k]))
  }

  ghost predicate FifoInv(s: State) {
    && Consistent(s.ring)
    && s.ring.produced == |s.pushed|
    && s.ring.consumed == |s.popped|
    && Values(s.pushed) == s.popped + Contents(s.ring)
  }

  // ---- what each producer has pushed ----

  /** The items of one producer, in the order in which they occur. */
  function Project(items: seq<Item>, p: nat): seq<Item> {
    if items == [] then []
    else
      var last := items[|items| - 1];
      Project(items[..|items| - 1], p) + if last.producer == p then [last] else []
  }

  function FirstItems(p: nat, n: nat): seq<Item> {
    seq(n, k requires 0 <= k => Item(p, k))
  }

  /** How many items a producer has pushed: the current one counts from the push on. */
  function PushedBy(t: Producer): nat {
    t.i + if t.pc.Signalling? || t.pc.Unlocking? then 1 else 0
  }

  ghost predicate ProducerInv(c: Config, t: Producer) {
    && t.i <= c.itemsPerProducer
    && (t.pc.Exited? ==> t.i == c.itemsPerProducer)
    && (t.pc.Preparing? || t.pc.Exited? || t.i < c.itemsPerProducer)
  }

  ghost predicate ProductionInv(c: Config, s: State) {
    && (forall p: nat | p < |s.producers| :: ProducerInv(c, s.producers[p]))
    && (forall p: nat | p < |s.producers| :: Project(s.pushed, p) == FirstItems(p, PushedBy(s.producers[p])))
    && (forall k: nat | k < |s.pushed| :: s.pushed[k].producer < |s.producers|)
  }

  // ---- no wake-up is lost ----

  function ProducerCredit(t: Producer): nat {
    if t.pc.Woken? || t.pc == ProducerPc.Testing(true) then 1 else 0
  }

  function ProducerCredits(ps: seq<Producer>): seq<nat> {
    seq(|ps|, k requires 0 <= k < |ps| => ProducerCredit(ps[k]))
  }

  /** Producers that left the wait and have not pushed yet. */
  function WokenProducers(s: State): nat {
    Sum(ProducerCredits(s.producers))
  }

  function ConsumerCredit(pc: ConsumerPc): nat {
    if pc.Woken? || pc == ConsumerPc.Testing(true) then 1 else 0
  }

  function ConsumerCredits(qs: seq<ConsumerPc>): seq<nat> {
    seq(|qs|, k requires 0 <= k < |qs| => ConsumerCredit(qs[k]))
  }

  /** Consumers that left the wait and have not popped yet. */
  function WokenConsumers(s: State): nat {
    Sum(ConsumerCredits(s.consumers))
  }

  /** 1 while the mutex owner has popped and not yet signalled not_full. */
  function OwedToProducers(s: State): nat {
    if s.owner.ByConsumer? && ConsumerAt(s, s.owner.q, ConsumerPc.Signalling) then 1 else 0
  }

  /** 1 while the mutex owner has pushed and not yet signalled not_empty. */
  function OwedToConsumers(s: State): nat {
    if s.owner.ByProducer? && ProducerAt(s, s.owner.p, ProducerPc.Signalling) then 1 else 0
  }

  /** Every free slot is promised to some producer, as long as one is blocked. */
  ghost predicate NotFullWakeups(c: Config, s: State) {
    BlockedProducers(s) != {} ==> c.bufferSize <= s.ring.count + WokenProducers(s) + OwedToProducers(s)
  }

  /** Every stored value is promised to some consumer, as long as one is blocked. */
  ghost predicate NotEmptyWakeups(s: State) {
    BlockedConsumers(s) != {} ==> s.ring.count <= WokenConsumers(s) + OwedToConsumers(s)
  }

  // ---- the shutdown handshake ----

  predicate FlagIsSet(pc: MainPc) {
    pc.Broadcasting? || pc.UnlockingMutex? || pc.JoiningConsumers? || pc.Done?
  }

  predicate HasBroadcast(pc: MainPc) {
    pc.UnlockingMutex? || pc.JoiningConsumers? || pc.Done?
  }

  /** How many producers main has joined. */
  function JoinedProducers(c: Config, s: State): nat {
    if s.main.JoiningProducers? then s.main.k else c.producerCount
  }

  function JoinedConsumers(c: Config, s: State): nat {
    if s.main.JoiningConsumers? then s.main.k else if s.main.Done? then c.consumerCount else 0
  }

  ghost predicate ShutdownInv(c: Config, s: State) {
    && (s.finished <==> FlagIsSet(s.main))
    && (forall p: nat | p < JoinedProducers(c, s) && p < |s.producers| :: s.producers[p].pc.Exited?)
    && (forall q: nat | q < JoinedConsumers(c, s) && q < |s.consumers| :: s.consumers[q].Exited?)
    && (forall q: nat | q < |s.consumers| && (s.consumers[q].Leaving? || s.consumers[q].Exited?) ::
          s.finished && s.ring.count == 0)
    && (HasBroadcast(s.main) ==> BlockedConsumers(s) == {})
  }

  ghost predicate Inv(c: Config, s: State) {
    && WellFormed(c, s)
    && MutualExclusion(s)
    && FifoInv(s)
    && ProductionInv(c, s)
    && NotFullWakeups(c, s)
    && NotEmptyWakeups(s)
    && ShutdownInv(c, s)
  }

  // ---- initially ----

  lemma InitInv(c: Config)
    requires ValidConfig(c)
    ensures Inv(c, Init(c))
  {
    EmptyIsConsistent(c.bufferSize);
  }

  // ---- preservation ----

  /** Which thread takes a step. */
  predicate TakenByProducer(step: Step) {
    step.Prepare? || step.LockByProducer? || step.TestFull? || step.SignalNotEmpty? || step.UnlockByProducer?
    || step.SpuriousProducer?
  }

  predicate TakenByMain(step: Step) {
    step.JoinProducer? || step.LockByMain? || step.SetFinished? || step.Broadcast? || step.UnlockByMain?
    || step.JoinConsumer?
  }

  lemma MutualExclusionKeptByProducer(c: Config, s: State, step: Step)
    requires WellFormed(c, s) && MutualExclusion(s) && Enabled(s, step) && TakenByProducer(step)
    ensures MutualExclusion(Apply(c, s, step))
  {
  }

  lemma MutualExclusionKeptByMain(c: Config, s: State, step: Step)
    requires WellFormed(c, s) && MutualExclusion(s) && Enabled(s, step) && TakenByMain(step)
    ensures MutualExclusion(Apply(c, s, step))
  {
  }

  lemma MutualExclusionKeptByConsumer(c: Config, s: State, step: Step)
    requires WellFormed(c, s) && MutualExclusion(s) && Enabled(s, step)
    requires !TakenByProducer(step) && !TakenByMain(step)
    ensures MutualExclusion(Apply(c, s, step))
  {
  }

  lemma MutualExclusionKept(c: Config, s: State, step: Step)
    requires WellFormed(c, s) && MutualExclusion(s) && Enabled(s, step)
    ensures MutualExclusion(Apply(c, s, step))
  {
    if TakenByProducer(step) {
      MutualExclusionKeptByProducer(c, s, step);
    } else if TakenByMain(step) {
      MutualExclusionKeptByMain(c, s, step);
    } else {
      MutualExclusionKeptByConsumer(c, s, step);
    }
  }

  lemma ValuesOfPush(items: seq<Item>, item: Item)
    ensures Values(items + [item]) == Values(items) + [Value(item)]
  {
  }

  lemma FifoKeptByPush(c: Config, s: State, p: nat)
    requires Inv(c, s) && Enabled(s, TestFull(p)) && s.ring.count != c.bufferSize
    ensures FifoInv(Apply(c, s, TestFull(p)))
  {
    var item := Item(p, s.producers[p].i);
    PushAppends(s.ring, Value(item));
    ValuesOfPush(s.pushed, item);
  }

  lemma FifoKeptByPop(c: Config, s: State, q: nat)
    requires Inv(c, s) && Enabled(s, TestEmpty(q)) && s.ring.count != 0
    ensures FifoInv(Apply(c, s, TestEmpty(q)))
  {
    PopRemovesOldest(s.ring);
  }

  lemma FifoKept(c: Config, s: State, step: Step)
    requires Inv(c, s) && Enabled(s, step)
    ensures FifoInv(Apply(c, s, step))
  {
    if step.TestFull? && s.ring.count != c.bufferSize {
      FifoKeptByPush(c, s, step.p);
    } else if step.TestEmpty? && s.ring.count != 0 {
      FifoKeptByPop(c, s, step.q);
    } else {
      var s' := Apply(c, s, step);
      assert s'.ring == s.ring && s'.pushed == s.pushed && s'.popped == s.popped;
    }
  }

  lemma ProjectOfPush(items: seq<Item>, item: Item, p: nat)
    ensures Project(items + [item], p) == Project(items, p) + if item.producer == p then [item] else []
  {
    assert (items + [item])[..|items|] == items;
  }

  lemma ProjectionsKeptByPush(s: State, p: nat)
    requires p < |s.producers| && s.producers[p].pc.Testing?
    requires forall p': nat | p' < |s.producers| ::
               Project(s.pushed, p') == FirstItems(p', PushedBy(s.producers[p']))
    ensures var t := s.producers[p];
            var ps := s.producers[p := t.(pc := ProducerPc.Signalling)];
            forall p': nat | p' < |ps| ::
              Project(s.pushed + [Item(p, t.i)], p') == FirstItems(p', PushedBy(ps[p']))
  {
    var item := Item(p, s.producers[p].i);
    forall p': nat | p' < |s.producers|
      ensures Project(s.pushed + [item], p') == Project(s.pushed, p') + if p' == p then [item] else []
    {
      ProjectOfPush(s.pushed, item, p');
    }
  }

  lemma ProductionKeptByPush(c: Config, s: State, p: nat)
    requires WellFormed(c, s) && ProductionInv(c, s) && Enabled(s, TestFull(p)) && s.ring.count != c.bufferSize
    ensures ProductionInv(c, Apply(c, s, TestFull(p)))
  {
    ProjectionsKeptByPush(s, p);
    assert ProducerInv(c, s.producers[p]);
  }

  lemma ProductionKept(c: Config, s: State, step: Step)
    requires Inv(c, s) && Enabled(s, step)
    ensures ProductionInv(c, Apply(c, s, step))
  {
    var s' := Apply(c, s, step);
    if step.TestFull? && s.ring.count != c.bufferSize {
      ProductionKeptByPush(c, s, step.p);
    } else {
      assert s'.pushed == s.pushed;
      forall p: nat | p < |s.producers|
        ensures PushedBy(s'.producers[p]) == PushedBy(s.producers[p])
        ensures ProducerInv(c, s'.producers[p])
      {
        assert ProducerInv(c, s.producers[p]);
      }
    }
  }

  lemma ProducerCreditsUpdate(ps: seq<Producer>, p: nat, t: Producer)
    requires p < |ps|
    ensures Sum(ProducerCredits(ps[p := t])) == Sum(ProducerCredits(ps)) - ProducerCredit(ps[p]) + ProducerCredit(t)
    ensures ProducerCredit(ps[p]) <= Sum(ProducerCredits(ps))
  {
    SumUpdate(ProducerCredits(ps), p, ProducerCredit(t));
    assert ProducerCredits(ps[p := t]) == ProducerCredits(ps)[p := ProducerCredit(t)];
  }

  lemma ConsumerCreditsUpdate(qs: seq<ConsumerPc>, q: nat, pc: ConsumerPc)
    requires q < |qs|
    ensures Sum(ConsumerCredits(qs[q := pc])) == Sum(ConsumerCredits(qs)) - ConsumerCredit(qs[q]) + ConsumerCredit(pc)
    ensures ConsumerCredit(qs[q]) <= Sum(ConsumerCredits(qs))
  {
    SumUpdate(ConsumerCredits(qs), q, ConsumerCredit(pc));
    assert ConsumerCredits(qs[q := pc]) == ConsumerCredits(qs)[q := ConsumerCredit(pc)];
  }

  /** A signal that reaches a blocked producer adds at least one credit. */
  lemma WakingProducersAddsCredit(s: State, woken: set<nat>)
    requires SignalMayWake(BlockedProducers(s), woken)
    ensures Sum(ProducerCredits(WakeProducers(s.producers, woken)))
         >= WokenProducers(s) + if BlockedProducers(s) == {} then 0 else 1
  {
    var xs, ys := ProducerCredits(s.producers), ProducerCredits(WakeProducers(s.producers, woken));
    SumMonotone(xs, ys);
    if BlockedProducers(s) != {} {
      var p :| p in woken;
      assert p in BlockedProducers(s);
      SumStrictlyMonotone(xs, ys, p);
    }
  }

  lemma WakingConsumersAddsCredit(s: State, woken: set<nat>)
    requires SignalMayWake(BlockedConsumers(s), woken)
    ensures Sum(ConsumerCredits(WakeConsumers(s.consumers, woken)))
         >= WokenConsumers(s) + if BlockedConsumers(s) == {} then 0 else 1
  {
    var xs, ys := ConsumerCredits(s.consumers), ConsumerCredits(WakeConsumers(s.consumers, woken));
    SumMonotone(xs, ys);
    if BlockedConsumers(s) != {} {
      var q :| q in woken;
      assert q in BlockedConsumers(s);
      SumStrictlyMonotone(xs, ys, q);
    }
  }

  /** A producer's own step changes only its own credit. */
  lemma NotFullWakeupsKeptByProducer(c: Config, s: State, step: Step)
    requires Inv(c, s) && Enabled(s, step) && TakenByProducer(step)
    ensures NotFullWakeups(c, Apply(c, s, step))
  {
    var s' := Apply(c, s, step);
    var p := step.p;
    ProducerCreditsUpdate(s.producers, p, s'.producers[p]);
    assert s'.producers == s.producers[p := s'.producers[p]];
    if s'.producers[p].pc.Blocked? {
    } else {
      assert BlockedProducers(s') <= BlockedProducers(s);
    }
  }

  lemma NotFullWakeupsKeptBySignal(c: Config, s: State, step: Step)
    requires Inv(c, s) && Enabled(s, step) && step.SignalNotFull?
    ensures NotFullWakeups(c, Apply(c, s, step))
  {
    WakingProducersAddsCredit(s, step.woken);
    assert BlockedProducers(Apply(c, s, step)) <= BlockedProducers(s);
  }

  lemma NotFullWakeupsKeptByOthers(c: Config, s: State, step: Step)
    requires Inv(c, s) && Enabled(s, step) && !TakenByProducer(step)
    ensures NotFullWakeups(c, Apply(c, s, step))
  {
    if step.SignalNotFull? {
      NotFullWakeupsKeptBySignal(c, s, step);
    } else {
      var s' := Apply(c, s, step);
      assert s'.producers == s.producers;
      assert BlockedProducers(s') == BlockedProducers(s);
    }
  }

  lemma NotEmptyWakeupsKeptByConsumer(c: Config, s: State, step: Step)
    requires Inv(c, s) && Enabled(s, step) && !TakenByProducer(step) && !TakenByMain(step)
    ensures NotEmptyWakeups(Apply(c, s, step))
  {
    var s' := Apply(c, s, step);
    var q := step.q;
    ConsumerCreditsUpdate(s.consumers, q, s'.consumers[q]);
    assert s'.consumers == s.consumers[q := s'.consumers[q]];
    if s'.consumers[q].Blocked? {
    } else {
      assert BlockedConsumers(s') <= BlockedConsumers(s);
    }
  }

  lemma NotEmptyWakeupsKeptByOthers(c: Config, s: State, step: Step)
    requires Inv(c, s) && Enabled(s, step) && (TakenByProducer(step) || TakenByMain(step))
    ensures NotEmptyWakeups(Apply(c, s, step))
  {
    var s' := Apply(c, s, step);
    if step.SignalNotEmpty? {
      WakingConsumersAddsCredit(s, step.woken);
      assert BlockedConsumers(s') <= BlockedConsumers(s);
    } else if step.Broadcast? {
      assert BlockedConsumers(s') == {};
    } else {
      assert s'.consumers == s.consumers;
      assert BlockedConsumers(s') == BlockedConsumers(s);
    }
  }

  lemma WakeupsKept(c: Config, s: State, step: Step)
    requires Inv(c, s) && Enabled(s, step)
    ensures NotFullWakeups(c, Apply(c, s, step)) && NotEmptyWakeups(Apply(c, s, step))
  {
    if TakenByProducer(step) {
      NotFullWakeupsKeptByProducer(c, s, step);
      NotEmptyWakeupsKeptByOthers(c, s, step);
    } else {
      NotFullWakeupsKeptByOthers(c, s, step);
      if TakenByMain(step) {
        NotEmptyWakeupsKeptByOthers(c, s, step);
      } else {
        NotEmptyWakeupsKeptByConsumer(c, s, step);
      }
    }
  }

  lemma ShutdownKeptByProducer(c: Config, s: State, step: Step)
    requires Inv(c, s) && Enabled(s, step) && TakenByProducer(step)
    ensures ShutdownInv(c, Apply(c, s, step))
  {
    var s' := Apply(c, s, step);
    assert !s.producers[step.p].pc.Exited?;
    assert !s.finished;
  }

  lemma ShutdownKeptByMain(c: Config, s: State, step: Step)
    requires Inv(c, s) && Enabled(s, step) && TakenByMain(step)
    ensures ShutdownInv(c, Apply(c, s, step))
  {
    var s' := Apply(c, s, step);
    if step.Broadcast? {
      assert BlockedConsumers(s') == {};
    } else {
      assert BlockedConsumers(s') == BlockedConsumers(s);
    }
  }

  /** A consumer's step leaves the flag, main and the producers alone, and joined
      consumers do not move. */
  lemma ConsumerStepFrame(c: Config, s: State, step: Step)
    requires WellFormed(c, s) && Enabled(s, step) && !TakenByProducer(step) && !TakenByMain(step)
    ensures var s' := Apply(c, s, step);
            && s'.finished == s.finished && s'.main == s.main && |s'.producers| == |s.producers|
            && (forall p: nat | p < |s.producers| && s.producers[p].pc.Exited? :: s'.producers[p].pc.Exited?)
            && s'.consumers == s.consumers[step.q := s'.consumers[step.q]]
            && !s.consumers[step.q].Exited?
            && (s'.ring.count == s.ring.count || 0 < s.ring.count)
            && (s'.consumers[step.q].Leaving? || s'.consumers[step.q].Exited? ==>
                  s'.ring.count == s.ring.count
                  && ((s.finished && s.ring.count == 0) || s.consumers[step.q].Leaving?))
            && (s'.consumers[step.q].Blocked? ==> s.ring.count == 0 && !s.finished)
  {
  }

  lemma ShutdownKeptByConsumer(c: Config, s: State, step: Step)
    requires Inv(c, s) && Enabled(s, step) && !TakenByProducer(step) && !TakenByMain(step)
    ensures ShutdownInv(c, Apply(c, s, step))
  {
    var s' := Apply(c, s, step);
    ConsumerStepFrame(c, s, step);
    if s'.consumers[step.q].Blocked? {
      assert !HasBroadcast(s.main);
    } else {
      assert BlockedConsumers(s') <= BlockedConsumers(s);
    }
  }

  /** Every step of every thread keeps the invariant. */
  lemma StepKeepsInv(c: Config, s: State, step: Step)
    requires Inv(c, s) && Enabled(s, step)
    ensures Inv(c, Apply(c, s, step))
  {
    MutualExclusionKept(c, s, step);
    FifoKept(c, s, step);
    ProductionKept(c, s, step);
    WakeupsKept(c, s, step);
    if TakenByProducer(step) {
      ShutdownKeptByProducer(c, s, step);
    } else if TakenByMain(step) {
      ShutdownKeptByMain(c, s, step);
    } else {
      ShutdownKeptByConsumer(c, s, step);
    }
  }

  lemma {:induction false} PathKeepsInv(c: Config, s: State, steps: seq<Step>, t: State)
    requires Inv(c, s) && Path(c, s, steps, t)
    ensures Inv(c, t)
    decreases |steps|
  {
    if steps != [] {
      StepKeepsInv(c, s, steps[0]);
      PathKeepsInv(c, Apply(c, s, steps[0]), steps[1..], t);
    }
  }

  /** Every state that some interleaving reaches satisfies the invariant. */
  lemma ReachableInv(c: Config, s: State)
    requires Reachable(c, s)
    ensures Inv(c, s)
  {
    InitInv(c);
    var steps :| Path(c, Init(c), steps, s);
    PathKeepsInv(c, Init(c), steps, s);
  }
}
