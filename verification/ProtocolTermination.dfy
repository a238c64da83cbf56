/** Every interleaving of the program does a bounded amount of work, and from
    every reachable state the program can run to its end. */
module ProtocolTermination {
  import opened Protocol
  import opened ProtocolInvariant
  import opened ProtocolResults
  import opened Sums
  import opened Arithmetic

  /** What one push or one pop is worth: more than all the waiting and waking it causes. */
  function ItemWorth(c: Config): nat {
    5 + 2 * c.producerCount + 2 * c.consumerCount
  }

  function ProducerRank(c: Config, pc: ProducerPc): nat {
    match pc
    case Exited => 0
    case Blocked => 1
    case Testing(_) => 2
    case Woken => 3
    case Wanting => 3
    case Preparing => 4
    case Unlocking => 5
    case Signalling => 6 + 2 * c.consumerCount
  }

  /** A producer's remaining work: its place in the loop, and a push and a pop
      for every item it has not pushed yet. */
  function ProducerWork(c: Config, t: Producer): nat {
    ProducerRank(c, t.pc)
    + 2 * ItemWorth(c) * (if PushedBy(t) <= c.itemsPerProducer then c.itemsPerProducer - PushedBy(t) else 0)
  }

  function ConsumerWork(c: Config, pc: ConsumerPc): nat {
    match pc
    case Exited => 0
    case Leaving => 1
    case Blocked => 1
    case Testing(_) => 2
    case Woken => 3
    case Wanting => 3
    case Processing => 4
    case Unlocking => 5
    case Signalling => 6 + 2 * c.producerCount
  }

  function MainWork(c: Config, pc: MainPc): nat {
    match pc
    case Done => 0
    case JoiningConsumers(k) => if k <= c.consumerCount then c.consumerCount - k else 0
    case UnlockingMutex => c.consumerCount + 1
    case Broadcasting => 3 * c.consumerCount + 2
    case SettingFlag => 3 * c.consumerCount + 3
    case WantingMutex => 3 * c.consumerCount + 4
    case JoiningProducers(k) =>
      3 * c.consumerCount + 4 + if k <= c.producerCount then c.producerCount - k else 0
  }

  function ProducersWork(c: Config, ps: seq<Producer>): seq<nat> {
    seq(|ps|, k requires 0 <= k < |ps| => ProducerWork(c, ps[k]))
  }

  function ConsumersWork(c: Config, qs: seq<ConsumerPc>): seq<nat> {
    seq(|qs|, k requires 0 <= k < |qs| => ConsumerWork(c, qs[k]))
  }

  /** A bound on the ordinary steps that are left. */
  function WorkLeft(c: Config, s: State): nat {
    Sum(ProducersWork(c, s.producers)) + Sum(ConsumersWork(c, s.consumers))
    + ItemWorth(c) * s.ring.count + MainWork(c, s.main)
  }

  /** The bound for the whole program, in terms of its four parameters. */
  function TotalWork(c: Config): nat {
    (4 + 2 * ItemWorth(c) * c.itemsPerProducer) * c.producerCount
    + 3 * c.consumerCount + 3 * c.consumerCount + 4 + c.producerCount
  }

  lemma InitialWork(c: Config)
    requires ValidConfig(c)
    ensures WorkLeft(c, Init(c)) == TotalWork(c)
  {
    var s := Init(c);
    SumOfConstant(ProducersWork(c, s.producers), 4 + 2 * ItemWorth(c) * c.itemsPerProducer);
    SumOfConstant(ConsumersWork(c, s.consumers), 3);
  }

  lemma ProducersWorkUpdate(c: Config, ps: seq<Producer>, p: nat, t: Producer)
    requires p < |ps|
    ensures Sum(ProducersWork(c, ps[p := t]))
         == Sum(ProducersWork(c, ps)) - ProducerWork(c, ps[p]) + ProducerWork(c, t)
  {
    SumUpdate(ProducersWork(c, ps), p, ProducerWork(c, t));
    assert ProducersWork(c, ps[p := t]) == ProducersWork(c, ps)[p := ProducerWork(c, t)];
  }

  lemma ConsumersWorkUpdate(c: Config, qs: seq<ConsumerPc>, q: nat, pc: ConsumerPc)
    requires q < |qs|
    ensures Sum(ConsumersWork(c, qs[q := pc]))
         == Sum(ConsumersWork(c, qs)) - ConsumerWork(c, qs[q]) + ConsumerWork(c, pc)
  {
    SumUpdate(ConsumersWork(c, qs), q, ConsumerWork(c, pc));
    assert ConsumersWork(c, qs[q := pc]) == ConsumersWork(c, qs)[q := ConsumerWork(c, pc)];
  }

  lemma WakingProducersCost(c: Config, s: State, woken: set<nat>)
    requires woken <= BlockedProducers(s)
    ensures Sum(ProducersWork(c, WakeProducers(s.producers, woken)))
         <= Sum(ProducersWork(c, s.producers)) + 2 * |s.producers|
  {
    var ps := WakeProducers(s.producers, woken);
    forall k | 0 <= k < |ps|
      ensures ProducerWork(c, ps[k]) <= ProducerWork(c, s.producers[k]) + 2
    {
      if k in woken {
        assert k in BlockedProducers(s);
      }
    }
    SumGrowthBounded(ProducersWork(c, s.producers), ProducersWork(c, ps), 2);
  }

  lemma WakingConsumersCost(c: Config, s: State, woken: set<nat>)
    requires woken <= BlockedConsumers(s)
    ensures Sum(ConsumersWork(c, WakeConsumers(s.consumers, woken)))
         <= Sum(ConsumersWork(c, s.consumers)) + 2 * |s.consumers|
  {
    var qs := WakeConsumers(s.consumers, woken);
    forall k | 0 <= k < |qs|
      ensures ConsumerWork(c, qs[k]) <= ConsumerWork(c, s.consumers[k]) + 2
    {
      if k in woken {
        assert k in BlockedConsumers(s);
      }
    }
    SumGrowthBounded(ConsumersWork(c, s.consumers), ConsumersWork(c, qs), 2);
  }

  /** The change of the measure that a step may make. */
  ghost predicate StepPays(c: Config, s: State, step: Step)
    requires WellFormed(c, s) && Enabled(s, step)
  {
    if External(step) then WorkLeft(c, Apply(c, s, step)) <= WorkLeft(c, s) + 2
    else WorkLeft(c, Apply(c, s, step)) < WorkLeft(c, s)
  }

  /** A push turns a pending item into a stored one and pays for its signal. */
  lemma PushPays(c: Config, t: Producer, count: nat)
    requires ProducerInv(c, t) && t.pc.Testing?
    ensures ProducerWork(c, t.(pc := ProducerPc.Signalling)) + ItemWorth(c) * (count + 1)
          < ProducerWork(c, t) + ItemWorth(c) * count
  {
    Distribute(2 * ItemWorth(c), c.itemsPerProducer - t.i - 1, 1);
    Distribute(ItemWorth(c), count, 1);
  }

  /** The producer's other steps only move it on. */
  lemma MovePays(c: Config, t: Producer)
    requires ProducerInv(c, t)
    ensures t.pc.Preparing? ==>
              && ProducerWork(c, t.(pc := ProducerPc.Wanting)) < ProducerWork(c, t)
              && ProducerWork(c, t.(pc := ProducerPc.Exited)) < ProducerWork(c, t)
    ensures t.pc.Wanting? ==> ProducerWork(c, t.(pc := ProducerPc.Testing(false))) < ProducerWork(c, t)
    ensures t.pc.Woken? ==> ProducerWork(c, t.(pc := ProducerPc.Testing(true))) < ProducerWork(c, t)
    ensures t.pc.Testing? ==> ProducerWork(c, t.(pc := ProducerPc.Blocked)) < ProducerWork(c, t)
    ensures t.pc.Signalling? ==>
              ProducerWork(c, t.(pc := ProducerPc.Unlocking)) + 2 * c.consumerCount < ProducerWork(c, t)
    ensures t.pc.Unlocking? ==> ProducerWork(c, Producer(Preparing, t.i + 1)) < ProducerWork(c, t)
    ensures t.pc.Blocked? ==> ProducerWork(c, t.(pc := ProducerPc.Woken)) == ProducerWork(c, t) + 2
  {
  }

  lemma ProducerStepPays(c: Config, s: State, step: Step)
    requires WellFormed(c, s) && Enabled(s, step) && TakenByProducer(step)
    requires ProducerInv(c, s.producers[step.p])
    ensures StepPays(c, s, step)
  {
    var s' := Apply(c, s, step);
    var p := step.p;
    var t, t' := s.producers[p], s'.producers[p];
    assert s'.producers == s.producers[p := t'] && s'.main == s.main;
    ProducersWorkUpdate(c, s.producers, p, t');
    MovePays(c, t);
    if step.TestFull? && s.ring.count != c.bufferSize {
      PushPays(c, t, s.ring.count);
    } else if step.SignalNotEmpty? {
      WakingConsumersCost(c, s, step.woken);
    } else {
      assert s'.ring == s.ring && s'.consumers == s.consumers;
    }
  }

  /** A pop removes a stored item and pays for its signal. */
  lemma PopPays(c: Config, count: nat)
    requires 0 < count
    ensures ConsumerWork(c, ConsumerPc.Signalling) + ItemWorth(c) * (count - 1)
          < ConsumerWork(c, ConsumerPc.Testing(true)) + ItemWorth(c) * count
  {
    Distribute(ItemWorth(c), count - 1, 1);
  }

  lemma PopStepPays(c: Config, s: State, q: nat)
    requires WellFormed(c, s) && Enabled(s, TestEmpty(q)) && s.ring.count != 0
    ensures StepPays(c, s, TestEmpty(q))
  {
    ConsumersWorkUpdate(c, s.consumers, q, ConsumerPc.Signalling);
    PopPays(c, s.ring.count);
  }

  /** The signal is worth more than all the producers it may wake. */
  lemma SignalNotFullBalance(c: Config, s: State, q: nat, woken: set<nat>)
    requires ConsumerAt(s, q, ConsumerPc.Signalling) && woken <= BlockedProducers(s)
    requires |s.producers| == c.producerCount
    ensures Sum(ProducersWork(c, WakeProducers(s.producers, woken)))
            + Sum(ConsumersWork(c, s.consumers[q := ConsumerPc.Unlocking]))
          < Sum(ProducersWork(c, s.producers)) + Sum(ConsumersWork(c, s.consumers))
  {
    ConsumersWorkUpdate(c, s.consumers, q, ConsumerPc.Unlocking);
    WakingProducersCost(c, s, woken);
  }

  lemma SignalNotFullPays(c: Config, s: State, q: nat, woken: set<nat>)
    requires WellFormed(c, s) && Enabled(s, SignalNotFull(q, woken))
    ensures StepPays(c, s, SignalNotFull(q, woken))
  {
    SignalNotFullBalance(c, s, q, woken);
  }

  /** The consumer's other steps only move it on. */
  lemma ConsumerMoves(c: Config, s: State, step: Step)
    requires WellFormed(c, s) && Enabled(s, step) && !TakenByProducer(step) && !TakenByMain(step)
    requires !step.SignalNotFull? && !(step.TestEmpty? && s.ring.count != 0)
    ensures var s' := Apply(c, s, step);
            && s'.producers == s.producers && s'.ring == s.ring && s'.main == s.main
            && s'.consumers == s.consumers[step.q := s'.consumers[step.q]]
            && if External(step)
               then ConsumerWork(c, s'.consumers[step.q]) == ConsumerWork(c, s.consumers[step.q]) + 2
               else ConsumerWork(c, s'.consumers[step.q]) < ConsumerWork(c, s.consumers[step.q])
  {
  }

  lemma ConsumerStepPays(c: Config, s: State, step: Step)
    requires WellFormed(c, s) && Enabled(s, step) && !TakenByProducer(step) && !TakenByMain(step)
    ensures StepPays(c, s, step)
  {
    if step.TestEmpty? && s.ring.count != 0 {
      PopStepPays(c, s, step.q);
    } else if step.SignalNotFull? {
      SignalNotFullPays(c, s, step.q, step.woken);
    } else {
      ConsumerMoves(c, s, step);
      ConsumersWorkUpdate(c, s.consumers, step.q, Apply(c, s, step).consumers[step.q]);
    }
  }

  lemma MainStepPays(c: Config, s: State, step: Step)
    requires WellFormed(c, s) && Enabled(s, step) && TakenByMain(step)
    ensures StepPays(c, s, step)
  {
    var s' := Apply(c, s, step);
    assert s'.ring == s.ring && s'.producers == s.producers;
    assert MainWork(c, s'.main) < MainWork(c, s.main);
    if step.Broadcast? {
      WakingConsumersCost(c, s, BlockedConsumers(s));
    } else {
      assert s'.consumers == s.consumers;
    }
  }

  lemma EveryStepPays(c: Config, s: State, step: Step)
    requires Inv(c, s) && Enabled(s, step)
    ensures StepPays(c, s, step)
  {
    if TakenByProducer(step) {
      ProducerStepPays(c, s, step);
    } else if TakenByMain(step) {
      MainStepPays(c, s, step);
    } else {
      ConsumerStepPays(c, s, step);
    }
  }

  function OrdinarySteps(steps: seq<Step>): nat {
    if steps == [] then 0 else (if External(steps[0]) then 0 else 1) + OrdinarySteps(steps[1..])
  }

  function ExternalSteps(steps: seq<Step>): nat {
    if steps == [] then 0 else (if External(steps[0]) then 1 else 0) + ExternalSteps(steps[1..])
  }

  /** Nobody times out or wakes up for no reason. */
  ghost predicate Unaided(steps: seq<Step>) {
    forall i | 0 <= i < |steps| ::
      !steps[i].TimeOut? && !steps[i].SpuriousProducer? && !steps[i].SpuriousConsumer?
  }

  lemma {:induction false} UnaidedIff(steps: seq<Step>)
    ensures Unaided(steps) <==> ExternalSteps(steps) == 0
  {
    if steps != [] {
      UnaidedIff(steps[1..]);
      assert steps == [steps[0]] + steps[1..];
    }
  }

  lemma {:induction false} StepsAdd(steps: seq<Step>)
    ensures |steps| == OrdinarySteps(steps) + ExternalSteps(steps)
  {
    if steps != [] {
      StepsAdd(steps[1..]);
    }
  }

  lemma {:induction false} WorkAlongPath(c: Config, s: State, steps: seq<Step>, t: State)
    requires Inv(c, s) && Path(c, s, steps, t)
    ensures OrdinarySteps(steps) + WorkLeft(c, t) <= WorkLeft(c, s) + 2 * ExternalSteps(steps)
    decreases |steps|
  {
    if steps != [] {
      StepKeepsInv(c, s, steps[0]);
      EveryStepPays(c, s, steps[0]);
      WorkAlongPath(c, Apply(c, s, steps[0]), steps[1..], t);
    }
  }

  /** No livelock: in any run of the program the threads take at most
      `TotalWork(c)` steps, plus two for every time-out or spurious wake-up. */
  lemma WorkIsBounded(c: Config, steps: seq<Step>, t: State)
    requires ValidConfig(c) && Path(c, Init(c), steps, t)
    ensures OrdinarySteps(steps) <= TotalWork(c) + 2 * ExternalSteps(steps)
    ensures |steps| == OrdinarySteps(steps) + ExternalSteps(steps)
    ensures Unaided(steps) ==>
              |steps| <= (4 + 2 * (5 + 2 * c.producerCount + 2 * c.consumerCount) * c.itemsPerProducer) * c.producerCount
                         + 6 * c.consumerCount + 4 + c.producerCount
  {
    InitInv(c);
    InitialWork(c);
    WorkAlongPath(c, Init(c), steps, t);
    StepsAdd(steps);
    UnaidedIff(steps);
    TotalWorkIs(c);
  }

  lemma TotalWorkIs(c: Config)
    ensures TotalWork(c)
         == (4 + 2 * (5 + 2 * c.producerCount + 2 * c.consumerCount) * c.itemsPerProducer) * c.producerCount
            + 6 * c.consumerCount + 4 + c.producerCount
  {
  }

  lemma RunToTheEnd(c: Config, s: State) returns (steps: seq<Step>, t: State)
    requires Inv(c, s)
    ensures Path(c, s, steps, t) && t.main == Done
    ensures ExternalSteps(steps) == 0
    decreases WorkLeft(c, s)
  {
    if s.main == Done {
      steps, t := [], s;
    } else {
      var step := NextStep(c, s);
      EveryStepPays(c, s, step);
      StepKeepsInv(c, s, step);
      var rest;
      rest, t := RunToTheEnd(c, Apply(c, s, step));
      steps := [step] + rest;
      assert steps[1..] == rest;
    }
  }

  lemma {:induction false} PathsCompose(c: Config, s: State, xs: seq<Step>, t: State, ys: seq<Step>, u: State)
    requires WellFormed(c, s) && Path(c, s, xs, t) && WellFormed(c, t) && Path(c, t, ys, u)
    ensures Path(c, s, xs + ys, u)
    decreases |xs|
  {
    if xs == [] {
      assert xs + ys == ys;
    } else {
      PathsCompose(c, Apply(c, s, xs[0]), xs[1..], t, ys, u);
      assert (xs + ys)[1..] == xs[1..] + ys;
    }
  }

  /** From every reachable state the program can finish without any time-out or
      spurious wake-up, and then every value has been delivered. */
  lemma EveryRunCanFinish(c: Config, s: State)
    requires Reachable(c, s)
    ensures exists steps, t ::
              WellFormed(c, s) && Path(c, s, steps, t) && Unaided(steps) && t.main == Done
              && multiset(t.popped) == AllValues(c.producerCount, c.itemsPerProducer)
  {
    ReachableInv(c, s);
    var steps, t := RunToTheEnd(c, s);
    var before :| Path(c, Init(c), before, s);
    PathsCompose(c, Init(c), before, s, steps, t);
    UnaidedIff(steps);
    CompleteRunDeliversEverything(c, t);
  }
}
