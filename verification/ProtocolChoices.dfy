/** Everything that the threads of cygwin/examples/test6.c may do: the steps of the
    protocol are exactly the moves that the program text allows, none is ever withheld,
    and every order of delivery that keeps each producer's own order does occur. */
module ProtocolChoices {
  import opened RingBuffer
  import opened Protocol
  import opened ProtocolInvariant
  import opened ProtocolResults
  import opened ProtocolTermination

  // ---- the program text, thread by thread ----

  /** From `before` to `after` some of the blocked consumers, at least one if there
      are any, have been woken; nothing else has happened to consumers. */
  ghost predicate ConsumersWoken(before: seq<ConsumerPc>, after: seq<ConsumerPc>) {
    && |after| == |before|
    && (forall q | 0 <= q < |before| ::
          after[q] == before[q] || (before[q].Blocked? && after[q].Woken?))
    && ((exists q :: 0 <= q < |before| && before[q].Blocked?) ==>
          exists q :: 0 <= q < |before| && before[q].Blocked? && after[q].Woken?)
  }

  ghost predicate ProducersWoken(before: seq<Producer>, after: seq<Producer>) {
    && |after| == |before|
    && (forall p | 0 <= p < |before| ::
          after[p] == before[p] || (before[p].pc.Blocked? && after[p] == Producer(ProducerPc.Woken, before[p].i)))
    && ((exists p :: 0 <= p < |before| && before[p].pc.Blocked?) ==>
          exists p :: 0 <= p < |before| && before[p].pc.Blocked? && after[p].pc.Woken?)
  }

  /** `producer_thread`, between two points at which another thread may run. */
  ghost predicate ProducerMoves(c: Config, s: State, t: State, p: nat)
    requires WellFormed(c, s)
  {
    && p < |s.producers|
    && var i := s.producers[p].i;
       var ring := s.ring;
       match s.producers[p].pc
       case Preparing =>
         var next := if i < c.itemsPerProducer then ProducerPc.Wanting else ProducerPc.Exited;
         t == s.(producers := s.producers[p := Producer(next, i)])
       case Wanting =>
         s.owner == Free
         && t == s.(owner := ByProducer(p), producers := s.producers[p := Producer(ProducerPc.Testing(false), i)])
       case Woken =>
         s.owner == Free
         && t == s.(owner := ByProducer(p), producers := s.producers[p := Producer(ProducerPc.Testing(true), i)])
       case Testing(_) =>
         if ring.count == c.bufferSize then
           t == s.(owner := Free, producers := s.producers[p := Producer(ProducerPc.Blocked, i)])
         else
           t == s.(producers := s.producers[p := Producer(ProducerPc.Signalling, i)],
                   pushed := s.pushed + [Item(p, i)],
                   ring := ring.(values := ring.values[ring.tail := (p + 1) * 100 + i],
                                 tail := (ring.tail + 1) % c.bufferSize,
                                 count := ring.count + 1, produced := ring.produced + 1))
       case Signalling =>
         ConsumersWoken(s.consumers, t.consumers)
         && t == s.(producers := s.producers[p := Producer(ProducerPc.Unlocking, i)], consumers := t.consumers)
       case Unlocking =>
         t == s.(owner := Free, producers := s.producers[p := Producer(Preparing, i + 1)])
       case Blocked =>
         t == s.(producers := s.producers[p := Producer(ProducerPc.Woken, i)])
       case Exited => false
  }

  /** `consumer_thread`. */
  ghost predicate ConsumerMoves(c: Config, s: State, t: State, q: nat)
    requires WellFormed(c, s)
  {
    && q < |s.consumers|
    && var ring := s.ring;
       match s.consumers[q]
       case Wanting =>
         s.owner == Free
         && t == s.(owner := ByConsumer(q), consumers := s.consumers[q := ConsumerPc.Testing(false)])
       case Woken =>
         s.owner == Free
         && t == s.(owner := ByConsumer(q), consumers := s.consumers[q := ConsumerPc.Testing(true)])
       case Testing(_) =>
         if ring.count != 0 then
           t == s.(consumers := s.consumers[q := ConsumerPc.Signalling],
                   popped := s.popped + [ring.values[ring.head]],
                   ring := ring.(head := (ring.head + 1) % c.bufferSize,
                                 count := ring.count - 1, consumed := ring.consumed + 1))
         else if s.finished then
           t == s.(consumers := s.consumers[q := Leaving])
         else
           t == s.(owner := Free, consumers := s.consumers[q := ConsumerPc.Blocked])
       case Blocked =>
         t == s.(consumers := s.consumers[q := ConsumerPc.Woken])
       case Signalling =>
         ProducersWoken(s.producers, t.producers)
         && t == s.(consumers := s.consumers[q := ConsumerPc.Unlocking], producers := t.producers)
       case Unlocking =>
         t == s.(owner := Free, consumers := s.consumers[q := Processing])
       case Processing =>
         t == s.(consumers := s.consumers[q := ConsumerPc.Wanting])
       case Leaving =>
         t == s.(owner := Free, consumers := s.consumers[q := ConsumerPc.Exited])
       case Exited => false
  }

  /** `main`, after it has created the threads. */
  ghost predicate MainMoves(c: Config, s: State, t: State)
    requires WellFormed(c, s)
  {
    match s.main
    case JoiningProducers(k) =>
      s.producers[k].pc.Exited?
      && t == s.(main := if k == c.producerCount - 1 then WantingMutex else JoiningProducers(k + 1))
    case WantingMutex => s.owner == Free && t == s.(owner := ByMain, main := SettingFlag)
    case SettingFlag => t == s.(finished := true, main := Broadcasting)
    case Broadcasting =>
      && |t.consumers| == |s.consumers|
      && (forall q | 0 <= q < |s.consumers| ::
            t.consumers[q] == if s.consumers[q].Blocked? then ConsumerPc.Woken else s.consumers[q])
      && t == s.(main := UnlockingMutex, consumers := t.consumers)
    case UnlockingMutex => t == s.(owner := Free, main := JoiningConsumers(0))
    case JoiningConsumers(k) =>
      s.consumers[k].Exited?
      && t == s.(main := if k == c.consumerCount - 1 then Done else JoiningConsumers(k + 1))
    case Done => false
  }

  ghost predicate SomeThreadMoves(c: Config, s: State, t: State)
    requires WellFormed(c, s)
  {
    (exists p: nat :: ProducerMoves(c, s, t, p)) || (exists q: nat :: ConsumerMoves(c, s, t, q)) || MainMoves(c, s, t)
  }

  // ---- the steps are these moves ----

  ghost predicate Leads(c: Config, s: State, step: Step, t: State)
    requires WellFormed(c, s)
  {
    Enabled(s, step) && Apply(c, s, step) == t
  }

  /** The step by which a thread makes its move. */
  lemma ProducerStep(c: Config, s: State, t: State, p: nat) returns (step: Step)
    requires WellFormed(c, s) && ProducerMoves(c, s, t, p)
    ensures Leads(c, s, step, t)
  {
    match s.producers[p].pc {
      case Preparing => step := Prepare(p);
      case Wanting => step := LockByProducer(p);
      case Woken => step := LockByProducer(p);
      case Testing(_) => step := TestFull(p);
      case Signalling =>
        var woken := set q: nat | q < |s.consumers| && s.consumers[q].Blocked? && t.consumers[q].Woken?;
        step := SignalNotEmpty(p, woken);
        ConsumersWokenBy(s, t, woken);
      case Unlocking => step := UnlockByProducer(p);
      case Blocked => step := SpuriousProducer(p);
    }
  }

  lemma ConsumersWokenBy(s: State, t: State, woken: set<nat>)
    requires ConsumersWoken(s.consumers, t.consumers)
    requires woken == set q: nat | q < |s.consumers| && s.consumers[q].Blocked? && t.consumers[q].Woken?
    ensures SignalMayWake(BlockedConsumers(s), woken) && WakeConsumers(s.consumers, woken) == t.consumers
  {
    if BlockedConsumers(s) != {} {
      var b :| b in BlockedConsumers(s);
      assert s.consumers[b].Blocked?;
      var q :| 0 <= q < |s.consumers| && s.consumers[q].Blocked? && t.consumers[q].Woken?;
      assert q in woken;
    }
  }

  lemma ProducersWokenBy(s: State, t: State, woken: set<nat>)
    requires ProducersWoken(s.producers, t.producers)
    requires woken == set p: nat | p < |s.producers| && s.producers[p].pc.Blocked? && t.producers[p].pc.Woken?
    ensures SignalMayWake(BlockedProducers(s), woken) && WakeProducers(s.producers, woken) == t.producers
  {
    if BlockedProducers(s) != {} {
      var b :| b in BlockedProducers(s);
      assert s.producers[b].pc.Blocked?;
      var p :| 0 <= p < |s.producers| && s.producers[p].pc.Blocked? && t.producers[p].pc.Woken?;
      assert p in woken;
    }
  }

  lemma ConsumerTests(c: Config, s: State, t: State, q: nat)
    requires WellFormed(c, s) && ConsumerMoves(c, s, t, q) && s.consumers[q].Testing?
    ensures Leads(c, s, TestEmpty(q), t)
  {
  }

  lemma SignalLeads(c: Config, s: State, t: State, q: nat, woken: set<nat>)
    requires WellFormed(c, s) && ConsumerAt(s, q, ConsumerPc.Signalling)
    requires SignalMayWake(BlockedProducers(s), woken)
    requires t == s.(consumers := s.consumers[q := ConsumerPc.Unlocking],
                     producers := WakeProducers(s.producers, woken))
    ensures Leads(c, s, SignalNotFull(q, woken), t)
  {
  }

  lemma ConsumerSignals(c: Config, s: State, t: State, q: nat) returns (step: Step)
    requires WellFormed(c, s) && ConsumerMoves(c, s, t, q) && s.consumers[q].Signalling?
    ensures Leads(c, s, step, t)
  {
    var woken := set p: nat | p < |s.producers| && s.producers[p].pc.Blocked? && t.producers[p].pc.Woken?;
    step := SignalNotFull(q, woken);
    ProducersWokenBy(s, t, woken);
    SignalLeads(c, s, t, q, woken);
  }

  lemma ConsumerStep(c: Config, s: State, t: State, q: nat) returns (step: Step)
    requires WellFormed(c, s) && ConsumerMoves(c, s, t, q)
    ensures Leads(c, s, step, t)
  {
    match s.consumers[q] {
      case Wanting => step := LockByConsumer(q);
      case Woken => step := LockByConsumer(q);
      case Testing(_) =>
        step := TestEmpty(q);
        ConsumerTests(c, s, t, q);
      case Blocked => step := TimeOut(q);
      case Signalling => step := ConsumerSignals(c, s, t, q);
      case Unlocking => step := UnlockByConsumer(q);
      case Processing => step := Process(q);
      case Leaving => step := Leave(q);
    }
  }

  lemma MainStep(c: Config, s: State, t: State) returns (step: Step)
    requires WellFormed(c, s) && MainMoves(c, s, t)
    ensures Leads(c, s, step, t)
  {
    match s.main {
      case JoiningProducers(_) => step := JoinProducer;
      case WantingMutex => step := LockByMain;
      case SettingFlag => step := SetFinished;
      case Broadcasting =>
        step := Broadcast;
        assert WakeConsumers(s.consumers, BlockedConsumers(s)) == t.consumers;
      case UnlockingMutex => step := UnlockByMain;
      case JoiningConsumers(_) => step := JoinConsumer;
    }
  }

  lemma WakingIsAWakeUp(s: State, woken: set<nat>)
    ensures SignalMayWake(BlockedConsumers(s), woken) ==>
              ConsumersWoken(s.consumers, WakeConsumers(s.consumers, woken))
    ensures SignalMayWake(BlockedProducers(s), woken) ==>
              ProducersWoken(s.producers, WakeProducers(s.producers, woken))
  {
    if SignalMayWake(BlockedConsumers(s), woken) {
      assert forall q <- woken :: q in BlockedConsumers(s);
      if b :| 0 <= b < |s.consumers| && s.consumers[b].Blocked? {
        assert b in BlockedConsumers(s);
        var q :| q in woken;
        assert WakeConsumers(s.consumers, woken)[q].Woken?;
      }
    }
    if SignalMayWake(BlockedProducers(s), woken) {
      assert forall p <- woken :: p in BlockedProducers(s);
      if b :| 0 <= b < |s.producers| && s.producers[b].pc.Blocked? {
        assert b in BlockedProducers(s);
        var p :| p in woken;
        assert WakeProducers(s.producers, woken)[p].pc.Woken?;
      }
    }
  }

  lemma StepIsMoveOfProducer(c: Config, s: State, step: Step)
    requires WellFormed(c, s) && Enabled(s, step) && TakenByProducer(step)
    ensures ProducerMoves(c, s, Apply(c, s, step), step.p)
  {
    if step.SignalNotEmpty? {
      WakingIsAWakeUp(s, step.woken);
    }
  }

  lemma StepIsMoveOfConsumer(c: Config, s: State, step: Step)
    requires WellFormed(c, s) && Enabled(s, step) && !TakenByProducer(step) && !TakenByMain(step)
    ensures ConsumerMoves(c, s, Apply(c, s, step), step.q)
  {
    if step.SignalNotFull? {
      WakingIsAWakeUp(s, step.woken);
    }
  }

  lemma StepIsMoveOfMain(c: Config, s: State, step: Step)
    requires WellFormed(c, s) && Enabled(s, step) && TakenByMain(step)
    ensures MainMoves(c, s, Apply(c, s, step))
  {
  }

  /** The steps of the protocol are the moves of the program text: no more, no less. */
  lemma StepsAreMoves(c: Config, s: State, t: State)
    requires WellFormed(c, s)
    ensures (exists step :: Leads(c, s, step, t)) <==> SomeThreadMoves(c, s, t)
  {
    if step :| Leads(c, s, step, t) {
      if TakenByProducer(step) {
        StepIsMoveOfProducer(c, s, step);
      } else if TakenByMain(step) {
        StepIsMoveOfMain(c, s, step);
      } else {
        StepIsMoveOfConsumer(c, s, step);
      }
    }
    if SomeThreadMoves(c, s, t) {
      if p: nat :| ProducerMoves(c, s, t, p) {
        var step := ProducerStep(c, s, t, p);
      } else if q: nat :| ConsumerMoves(c, s, t, q) {
        var step := ConsumerStep(c, s, t, q);
      } else {
        var step := MainStep(c, s, t);
      }
    }
  }

  lemma OneMore(c: Config, s: State, step: Step) returns (t: State)
    requires Reachable(c, s) && WellFormed(c, s) && Enabled(s, step)
    ensures Reachable(c, t) && WellFormed(c, t) && t == Apply(c, s, step)
  {
    var steps :| Path(c, Init(c), steps, s);
    t := Apply(c, s, step);
    assert Path(c, s, [step], t);
    PathsCompose(c, Init(c), steps, s, [step], t);
  }

  /** From a reachable state every move leads to a reachable state. */
  lemma MovesStayReachable(c: Config, s: State, t: State)
    requires Reachable(c, s) && WellFormed(c, s) && SomeThreadMoves(c, s, t)
    ensures Reachable(c, t)
  {
    StepsAreMoves(c, s, t);
    var step :| Leads(c, s, step, t);
    var u := OneMore(c, s, step);
  }

  // ---- what the scheduler and the system may choose ----

  /** A signal on not_empty may wake any set of the blocked consumers, as long as it
      wakes one if there is one, and leaves every other consumer where it is. */
  lemma SignalNotEmptyWakesAnySet(c: Config, s: State, p: nat, woken: set<nat>)
    requires Reachable(c, s) && p < |s.producers| && s.producers[p].pc.Signalling?
    requires forall q <- woken :: q < |s.consumers| && s.consumers[q].Blocked?
    requires (exists q :: 0 <= q < |s.consumers| && s.consumers[q].Blocked?) ==> woken != {}
    ensures exists t ::
              && Reachable(c, t) && |t.consumers| == |s.consumers|
              && (forall q: nat | q < |s.consumers| ::
                    t.consumers[q] == if q in woken then ConsumerPc.Woken else s.consumers[q])
              && t == s.(producers := s.producers[p := Producer(ProducerPc.Unlocking, s.producers[p].i)],
                         consumers := t.consumers)
  {
    ReachableInv(c, s);
    var after := seq(|s.consumers|, q requires 0 <= q < |s.consumers| =>
                       if q in woken then ConsumerPc.Woken else s.consumers[q]);
    var t := s.(producers := s.producers[p := Producer(ProducerPc.Unlocking, s.producers[p].i)], consumers := after);
    assert ConsumersWoken(s.consumers, after) by {
      if b :| 0 <= b < |s.consumers| && s.consumers[b].Blocked? {
        var q :| q in woken;
        assert s.consumers[q].Blocked? && after[q].Woken?;
      }
    }
    assert ProducerMoves(c, s, t, p);
    MovesStayReachable(c, s, t);
  }

  lemma WakingSetIsMove(c: Config, s: State, q: nat, woken: set<nat>) returns (t: State)
    requires WellFormed(c, s) && q < |s.consumers| && s.consumers[q].Signalling?
    requires forall p <- woken :: p < |s.producers| && s.producers[p].pc.Blocked?
    requires (exists p :: 0 <= p < |s.producers| && s.producers[p].pc.Blocked?) ==> woken != {}
    ensures ConsumerMoves(c, s, t, q) && |t.producers| == |s.producers|
    ensures forall p: nat | p < |s.producers| ::
              t.producers[p] == if p in woken then Producer(ProducerPc.Woken, s.producers[p].i) else s.producers[p]
    ensures t == s.(consumers := s.consumers[q := ConsumerPc.Unlocking], producers := t.producers)
  {
    var after := seq(|s.producers|, p requires 0 <= p < |s.producers| =>
                       if p in woken then Producer(ProducerPc.Woken, s.producers[p].i) else s.producers[p]);
    t := s.(consumers := s.consumers[q := ConsumerPc.Unlocking], producers := after);
    assert ProducersWoken(s.producers, after) by {
      if b :| 0 <= b < |s.producers| && s.producers[b].pc.Blocked? {
        var p :| p in woken;
        assert s.producers[p].pc.Blocked? && after[p].pc.Woken?;
      }
    }
  }

  /** And a signal on not_full any such set of the blocked producers. */
  lemma SignalNotFullWakesAnySet(c: Config, s: State, q: nat, woken: set<nat>)
    requires Reachable(c, s) && q < |s.consumers| && s.consumers[q].Signalling?
    requires forall p <- woken :: p < |s.producers| && s.producers[p].pc.Blocked?
    requires (exists p :: 0 <= p < |s.producers| && s.producers[p].pc.Blocked?) ==> woken != {}
    ensures exists t ::
              && Reachable(c, t) && |t.producers| == |s.producers|
              && (forall p: nat | p < |s.producers| ::
                    t.producers[p] == if p in woken then Producer(ProducerPc.Woken, s.producers[p].i) else s.producers[p])
              && t == s.(consumers := s.consumers[q := ConsumerPc.Unlocking], producers := t.producers)
  {
    ReachableInv(c, s);
    var t := WakingSetIsMove(c, s, q, woken);
    MovesStayReachable(c, s, t);
  }

  /** Any thread that wants a free mutex may be the one to get it. */
  lemma AnyThreadMayLock(c: Config, s: State)
    requires Reachable(c, s) && s.owner == Free
    ensures forall p: nat | p < |s.producers| && (s.producers[p].pc.Wanting? || s.producers[p].pc.Woken?) ::
              var after := Producer(ProducerPc.Testing(s.producers[p].pc.Woken?), s.producers[p].i);
              Reachable(c, s.(owner := ByProducer(p), producers := s.producers[p := after]))
    ensures forall q: nat | q < |s.consumers| && (s.consumers[q].Wanting? || s.consumers[q].Woken?) ::
              var after := ConsumerPc.Testing(s.consumers[q].Woken?);
              Reachable(c, s.(owner := ByConsumer(q), consumers := s.consumers[q := after]))
    ensures s.main == WantingMutex ==> Reachable(c, s.(owner := ByMain, main := SettingFlag))
  {
    ReachableInv(c, s);
    forall p: nat | p < |s.producers| && (s.producers[p].pc.Wanting? || s.producers[p].pc.Woken?)
      ensures var after := Producer(ProducerPc.Testing(s.producers[p].pc.Woken?), s.producers[p].i);
              Reachable(c, s.(owner := ByProducer(p), producers := s.producers[p := after]))
    {
      var after := Producer(ProducerPc.Testing(s.producers[p].pc.Woken?), s.producers[p].i);
      var t := s.(owner := ByProducer(p), producers := s.producers[p := after]);
      assert ProducerMoves(c, s, t, p);
      MovesStayReachable(c, s, t);
    }
    forall q: nat | q < |s.consumers| && (s.consumers[q].Wanting? || s.consumers[q].Woken?)
      ensures var after := ConsumerPc.Testing(s.consumers[q].Woken?);
              Reachable(c, s.(owner := ByConsumer(q), consumers := s.consumers[q := after]))
    {
      var after := ConsumerPc.Testing(s.consumers[q].Woken?);
      var t := s.(owner := ByConsumer(q), consumers := s.consumers[q := after]);
      assert ConsumerMoves(c, s, t, q);
      MovesStayReachable(c, s, t);
    }
    if s.main == WantingMutex {
      MovesStayReachable(c, s, s.(owner := ByMain, main := SettingFlag));
    }
  }

  /** A consumer's wait may end at any time without a signal: by a time-out or
      spuriously. */
  lemma AnyConsumerWaitMayEnd(c: Config, s: State)
    requires Reachable(c, s)
    ensures forall q: nat | q < |s.consumers| && s.consumers[q].Blocked? ::
              && Enabled(s, TimeOut(q)) && Enabled(s, SpuriousConsumer(q))
              && Reachable(c, s.(consumers := s.consumers[q := ConsumerPc.Woken]))
  {
    ReachableInv(c, s);
    forall q: nat | q < |s.consumers| && s.consumers[q].Blocked?
      ensures Reachable(c, s.(consumers := s.consumers[q := ConsumerPc.Woken]))
    {
      var t := s.(consumers := s.consumers[q := ConsumerPc.Woken]);
      assert ConsumerMoves(c, s, t, q);
      MovesStayReachable(c, s, t);
    }
  }

  /** A producer's wait may end spuriously. */
  lemma AnyProducerWaitMayEnd(c: Config, s: State)
    requires Reachable(c, s)
    ensures forall p: nat | p < |s.producers| && s.producers[p].pc.Blocked? ::
              && Enabled(s, SpuriousProducer(p))
              && Reachable(c, s.(producers := s.producers[p := Producer(ProducerPc.Woken, s.producers[p].i)]))
  {
    ReachableInv(c, s);
    forall p: nat | p < |s.producers| && s.producers[p].pc.Blocked?
      ensures Reachable(c, s.(producers := s.producers[p := Producer(ProducerPc.Woken, s.producers[p].i)]))
    {
      var t := s.(producers := s.producers[p := Producer(ProducerPc.Woken, s.producers[p].i)]);
      assert ProducerMoves(c, s, t, p);
      MovesStayReachable(c, s, t);
    }
  }

  // ---- every order of delivery occurs ----

  /** No thread is inside its critical section, nobody waits, and the buffer is empty. */
  ghost predicate Quiet(c: Config, s: State) {
    && Reachable(c, s) && WellFormed(c, s)
    && s.owner == Free && s.ring.count == 0 && s.main == JoiningProducers(0)
    && (forall p: nat | p < |s.producers| :: s.producers[p].pc.Preparing?)
    && (forall q: nat | q < |s.consumers| :: s.consumers[q].Wanting?)
  }

  lemma PushOne(c: Config, s: State, p: nat) returns (t: State)
    requires Quiet(c, s) && p < |s.producers| && s.producers[p].i < c.itemsPerProducer
    ensures Reachable(c, t) && WellFormed(c, t)
    ensures t == s.(producers := s.producers[p := Producer(ProducerPc.Signalling, s.producers[p].i)],
                    pushed := s.pushed + [Item(p, s.producers[p].i)], ring := t.ring, owner := ByProducer(p))
    ensures t.ring.count == 1
  {
    t := OneMore(c, s, Prepare(p));
    t := OneMore(c, t, LockByProducer(p));
    t := OneMore(c, t, TestFull(p));
  }

  lemma SignalToNobody(c: Config, s: State, p: nat)
    requires WellFormed(c, s) && ProducerAt(s, p, ProducerPc.Signalling) && BlockedConsumers(s) == {}
    ensures Enabled(s, SignalNotEmpty(p, {}))
    ensures Apply(c, s, SignalNotEmpty(p, {}))
         == s.(producers := s.producers[p := Producer(ProducerPc.Unlocking, s.producers[p].i)])
  {
    assert WakeConsumers(s.consumers, {}) == s.consumers;
  }

  lemma UpdateTwice(ps: seq<Producer>, p: nat, x: Producer, y: Producer)
    requires p < |ps|
    ensures ps[p := x][p := y] == ps[p := y]
  {
  }

  lemma SignalAndUnlock(c: Config, s: State, p: nat) returns (u: State, t: State)
    requires WellFormed(c, s) && ProducerAt(s, p, ProducerPc.Signalling) && BlockedConsumers(s) == {}
    ensures Leads(c, s, SignalNotEmpty(p, {}), u) && WellFormed(c, u)
    ensures Leads(c, u, UnlockByProducer(p), t)
    ensures t == s.(producers := s.producers[p := Producer(Preparing, s.producers[p].i + 1)], owner := Free)
  {
    var i := s.producers[p].i;
    SignalToNobody(c, s, p);
    u := Apply(c, s, SignalNotEmpty(p, {}));
    UpdateTwice(s.producers, p, Producer(ProducerPc.Unlocking, i), Producer(Preparing, i + 1));
    t := DoUnlockByProducer(u, p);
  }

  lemma FollowTwo(c: Config, s: State, a: Step, u: State, b: Step, t: State)
    requires Reachable(c, s) && WellFormed(c, s) && Leads(c, s, a, u) && WellFormed(c, u) && Leads(c, u, b, t)
    ensures Reachable(c, t) && WellFormed(c, t)
  {
    var x := OneMore(c, s, a);
    x := OneMore(c, x, b);
  }

  lemma FinishItem(c: Config, s: State, p: nat) returns (t: State)
    requires Reachable(c, s) && WellFormed(c, s)
    requires ProducerAt(s, p, ProducerPc.Signalling) && BlockedConsumers(s) == {}
    ensures Reachable(c, t) && WellFormed(c, t)
    ensures t == s.(producers := s.producers[p := Producer(Preparing, s.producers[p].i + 1)], owner := Free)
  {
    var u;
    u, t := SignalAndUnlock(c, s, p);
    FollowTwo(c, s, SignalNotEmpty(p, {}), u, UnlockByProducer(p), t);
  }

  /** One producer goes through its loop body undisturbed. */
  lemma ProduceOne(c: Config, s: State, p: nat) returns (t: State)
    requires Quiet(c, s) && p < |s.producers| && s.producers[p].i < c.itemsPerProducer
    ensures Reachable(c, t) && WellFormed(c, t)
    ensures t == s.(producers := s.producers[p := Producer(Preparing, s.producers[p].i + 1)],
                    pushed := s.pushed + [Item(p, s.producers[p].i)], ring := t.ring)
    ensures t.ring.count == 1
  {
    var i := s.producers[p].i;
    assert BlockedConsumers(s) == {};
    t := PushOne(c, s, p);
    t := FinishItem(c, t, p);
    UpdateTwice(s.producers, p, Producer(ProducerPc.Signalling, i), Producer(Preparing, i + 1));
  }

  lemma PopOne(c: Config, s: State) returns (t: State)
    requires Reachable(c, s) && WellFormed(c, s) && s.owner == Free && s.ring.count == 1
    requires s.consumers[0].Wanting?
    ensures Reachable(c, t) && WellFormed(c, t)
    ensures t == s.(popped := t.popped, ring := t.ring, owner := ByConsumer(0),
                    consumers := s.consumers[0 := ConsumerPc.Signalling])
    ensures t.ring.count == 0
  {
    t := OneMore(c, s, LockByConsumer(0));
    t := OneMore(c, t, TestEmpty(0));
  }

  lemma SignalToNoProducer(c: Config, s: State, q: nat)
    requires WellFormed(c, s) && ConsumerAt(s, q, ConsumerPc.Signalling) && BlockedProducers(s) == {}
    ensures Enabled(s, SignalNotFull(q, {}))
    ensures Apply(c, s, SignalNotFull(q, {})) == s.(consumers := s.consumers[q := ConsumerPc.Unlocking])
  {
    assert WakeProducers(s.producers, {}) == s.producers;
  }

  lemma SignalUnlockProcess(c: Config, s: State) returns (t: State)
    requires Reachable(c, s) && WellFormed(c, s) && s.consumers[0].Signalling?
    requires BlockedProducers(s) == {}
    ensures Reachable(c, t) && WellFormed(c, t)
    ensures t == s.(consumers := s.consumers[0 := ConsumerPc.Wanting], owner := Free)
  {
    SignalToNoProducer(c, s, 0);
    t := OneMore(c, s, SignalNotFull(0, {}));
    t := OneMore(c, t, UnlockByConsumer(0));
    t := OneMore(c, t, Process(0));
  }

  /** And the first consumer through its. */
  lemma ConsumeOne(c: Config, s: State) returns (t: State)
    requires Reachable(c, s) && WellFormed(c, s) && s.owner == Free && s.ring.count == 1
    requires s.consumers[0].Wanting? && BlockedProducers(s) == {}
    ensures Reachable(c, t) && WellFormed(c, t)
    ensures t == s.(popped := t.popped, ring := t.ring) && t.ring.count == 0
  {
    t := PopOne(c, s);
    assert BlockedProducers(t) == BlockedProducers(s);
    t := SignalUnlockProcess(c, t);
    assert t.consumers == s.consumers;
  }

  lemma DeliverOne(c: Config, s: State, p: nat) returns (t: State)
    requires Quiet(c, s) && p < |s.producers| && s.producers[p].i < c.itemsPerProducer
    ensures Quiet(c, t) && t.pushed == s.pushed + [Item(p, s.producers[p].i)]
  {
    t := ProduceOne(c, s, p);
    assert BlockedProducers(t) == {};
    t := ConsumeOne(c, t);
  }

  /** A complete history: each producer's items, all of them and in their order. */
  ghost predicate CompleteOrder(c: Config, items: seq<Item>) {
    && (forall k | 0 <= k < |items| :: items[k].producer < c.producerCount)
    && (forall p: nat | p < c.producerCount :: Project(items, p) == FirstItems(p, c.itemsPerProducer))
  }

  /** Which item comes next in such a history. */
  lemma NextItem(c: Config, items: seq<Item>, n: nat)
    requires CompleteOrder(c, items) && n < |items|
    ensures var done := Project(items[..n], items[n].producer);
            |done| < c.itemsPerProducer && items[n] == Item(items[n].producer, |done|)
  {
    var p := items[n].producer;
    ProjectOfPush(items[..n], items[n], p);
    assert items[..n] + [items[n]] == items[..n + 1];
    ProjectOfPrefix(items, n + 1, p);
    var done := Project(items[..n], p);
    assert (done + [items[n]])[|done|] == items[n];
    assert FirstItems(p, c.itemsPerProducer)[|done|] == Item(p, |done|);
  }

  lemma QuietProducer(c: Config, s: State, p: nat)
    requires Quiet(c, s) && p < |s.producers|
    ensures s.producers[p].i == |Project(s.pushed, p)|
  {
    ReachableInv(c, s);
    assert PushedBy(s.producers[p]) == s.producers[p].i;
  }

  lemma {:induction false} DeliverInOrder(c: Config, items: seq<Item>, n: nat) returns (s: State)
    requires ValidConfig(c) && CompleteOrder(c, items) && n <= |items|
    ensures Quiet(c, s) && s.pushed == items[..n]
  {
    if n == 0 {
      s := Init(c);
      assert Path(c, s, [], s);
    } else {
      s := DeliverInOrder(c, items, n - 1);
      var p := items[n - 1].producer;
      NextItem(c, items, n - 1);
      QuietProducer(c, s, p);
      s := DeliverOne(c, s, p);
      assert items[..n] == items[..n - 1] + [items[n - 1]];
    }
  }

  lemma {:induction false} HistoryGrows(c: Config, s: State, steps: seq<Step>, t: State)
    requires WellFormed(c, s) && Path(c, s, steps, t)
    ensures s.pushed <= t.pushed
    decreases |steps|
  {
    if steps != [] {
      HistoryGrows(c, Apply(c, s, steps[0]), steps[1..], t);
    }
  }

  lemma {:induction false} ProjectionLength(items: seq<Item>, p: nat)
    ensures |Project(items, p)| <= |items|
  {
    if items != [] {
      ProjectionLength(items[..|items| - 1], p);
    }
  }

  /** Two histories, one a beginning of the other, with the same projections are equal. */
  lemma LongerHistoryShows(c: Config, xs: seq<Item>, ys: seq<Item>)
    requires CompleteOrder(c, xs) && CompleteOrder(c, ys) && xs <= ys
    ensures xs == ys
  {
    if |xs| < |ys| {
      assert ys[..|xs|] == xs;
      NextItem(c, ys, |xs|);
    }
  }

  lemma CompleteHistory(c: Config, s: State)
    requires Reachable(c, s) && s.main == Done
    ensures CompleteOrder(c, s.pushed)
  {
    ReachableInv(c, s);
    forall p: nat | p < c.producerCount
      ensures Project(s.pushed, p) == FirstItems(p, c.itemsPerProducer)
    {
      assert s.producers[p].pc.Exited?;
    }
  }

  lemma FinishFrom(c: Config, s: State) returns (t: State)
    requires Reachable(c, s)
    ensures Reachable(c, t) && t.main == Done && s.pushed <= t.pushed
  {
    ReachableInv(c, s);
    var steps;
    steps, t := RunToTheEnd(c, s);
    var before :| Path(c, Init(c), before, s);
    PathsCompose(c, Init(c), before, s, steps, t);
    HistoryGrows(c, s, steps, t);
  }

  /** A run that delivers in a given order. */
  lemma OrderOccurs(c: Config, items: seq<Item>) returns (t: State)
    requires ValidConfig(c) && CompleteOrder(c, items)
    ensures Reachable(c, t) && t.main == Done && t.pushed == items
  {
    var s := DeliverInOrder(c, items, |items|);
    t := FinishFrom(c, s);
    CompleteHistory(c, t);
    assert s.pushed == items;
    LongerHistoryShows(c, items, t.pushed);
  }

  /** The orders in which a complete run may deliver: exactly those in which the items
      of each producer, all of them, come in the producer's order. */
  lemma DeliveredOrders(c: Config, items: seq<Item>)
    requires ValidConfig(c)
    ensures (exists s :: Reachable(c, s) && s.main == Done && s.pushed == items
                         && |s.popped| == |items|
                         && (forall k | 0 <= k < |items| ::
                               s.popped[k] == (items[k].producer + 1) * 100 + items[k].index))
       <==> CompleteOrder(c, items)
  {
    if s :| Reachable(c, s) && s.main == Done && s.pushed == items {
      CompleteHistory(c, s);
    }
    if CompleteOrder(c, items) {
      var t := OrderOccurs(c, items);
      CompleteRunDeliversEverything(c, t);
      BufferIsFifo(c, t);
    }
  }
}
