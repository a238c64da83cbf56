/** What the invariant gives for every interleaving: FIFO order, no lost
    wake-up, no deadlock, a clean shutdown, and the final statistics. */
module ProtocolResults {
  import opened RingBuffer
  import opened Protocol
  import opened ProtocolInvariant
  import opened Sums
  import opened Arithmetic

  // ---- mutual exclusion and FIFO order ----

  /** No two consumers or producers are in their critical sections together,
      and none is there together with main. */
  lemma CriticalSectionsExclude(c: Config, s: State)
    requires Reachable(c, s)
    ensures forall p: nat, q: nat | p < q < |s.producers| ::
              !(ProducerHolds(s.producers[p].pc) && ProducerHolds(s.producers[q].pc))
    ensures forall p: nat, q: nat | p < q < |s.consumers| ::
              !(ConsumerHolds(s.consumers[p]) && ConsumerHolds(s.consumers[q]))
    ensures forall p: nat, q: nat | p < |s.producers| && q < |s.consumers| ::
              !(ProducerHolds(s.producers[p].pc) && ConsumerHolds(s.consumers[q]))
    ensures MainHolds(s.main) ==>
              && (forall p: nat | p < |s.producers| :: !ProducerHolds(s.producers[p].pc))
              && (forall q: nat | q < |s.consumers| :: !ConsumerHolds(s.consumers[q]))
  {
    ReachableInv(c, s);
  }

  /** The items that have been popped: a prefix of those pushed. */
  ghost function PoppedItems(s: State): seq<Item>
    requires |s.popped| <= |s.pushed|
  {
    s.pushed[..|s.popped|]
  }

  lemma {:induction false} ProjectOfPrefix(items: seq<Item>, n: nat, p: nat)
    requires n <= |items|
    ensures Project(items[..n], p) <= Project(items, p)
  {
    if n < |items| {
      ProjectOfPrefix(items[..|items| - 1], n, p);
      assert items[..|items| - 1][..n] == items[..n];
    } else {
      assert items[..n] == items;
    }
  }

  /** The ring refines an unbounded FIFO queue: what has been popped is a prefix
      of what has been pushed, the live slots are the rest, the indices follow
      from the totals, and the items of each producer leave in order. */
  lemma BufferIsFifo(c: Config, s: State)
    requires Reachable(c, s)
    ensures |s.popped| <= |s.pushed| && 0 < |s.ring.values| == c.bufferSize
    ensures s.popped == Values(PoppedItems(s))
    ensures forall k | 0 <= k < |s.popped| ::
              s.popped[k] == (s.pushed[k].producer + 1) * 100 + s.pushed[k].index
    ensures Contents(s.ring) == Values(s.pushed[|s.popped|..])
    ensures s.ring.head == s.ring.consumed % c.bufferSize && s.ring.consumed == |s.popped|
    ensures s.ring.tail == s.ring.produced % c.bufferSize && s.ring.produced == |s.pushed|
    ensures s.ring.count <= c.bufferSize
    ensures forall p: nat | p < |s.producers| ::
              && Project(PoppedItems(s), p) <= Project(s.pushed, p)
              && Project(s.pushed, p) == FirstItems(p, PushedBy(s.producers[p]))
  {
    ReachableInv(c, s);
    assert Values(s.pushed)[..|s.popped|] == Values(PoppedItems(s));
    assert Values(s.pushed)[|s.popped|..] == Values(s.pushed[|s.popped|..]);
    forall p: nat | p < |s.producers|
      ensures Project(PoppedItems(s), p) <= Project(s.pushed, p)
    {
      ProjectOfPrefix(s.pushed, |s.popped|, p);
    }
  }

  // ---- no lost wake-up, no deadlock ----

  /** Producers and consumers that a wake-up has taken out of their wait and that have
      not pushed or popped since. */
  ghost function BackFromNotFull(s: State): set<nat> {
    set p: nat | p < |s.producers| && (s.producers[p].pc.Woken? || s.producers[p].pc == ProducerPc.Testing(true))
  }

  ghost function BackFromNotEmpty(s: State): set<nat> {
    set q: nat | q < |s.consumers| && (s.consumers[q].Woken? || s.consumers[q] == ConsumerPc.Testing(true))
  }

  /** The threads that have pushed or popped and not yet signalled. */
  ghost function PushedNotSignalled(s: State): set<Owner> {
    set p: nat | p < |s.producers| && s.producers[p].pc.Signalling? :: ByProducer(p)
  }

  ghost function PoppedNotSignalled(s: State): set<Owner> {
    set q: nat | q < |s.consumers| && s.consumers[q].Signalling? :: ByConsumer(q)
  }

  lemma CreditsAreCounts(s: State)
    ensures WokenProducers(s) == |BackFromNotFull(s)| && WokenConsumers(s) == |BackFromNotEmpty(s)|
  {
    SumCounts(ProducerCredits(s.producers), BackFromNotFull(s));
    SumCounts(ConsumerCredits(s.consumers), BackFromNotEmpty(s));
  }

  lemma OwedAreOwners(s: State)
    requires MutualExclusion(s)
    ensures OwedToProducers(s) == |PoppedNotSignalled(s)|
    ensures OwedToConsumers(s) == |PushedNotSignalled(s)|
    ensures s.owner == Free ==> PoppedNotSignalled(s) == PushedNotSignalled(s) == {}
  {
    assert forall q: nat | q < |s.consumers| && s.consumers[q].Signalling? :: ConsumerHolds(s.consumers[q]);
    assert forall p: nat | p < |s.producers| && s.producers[p].pc.Signalling? :: ProducerHolds(s.producers[p].pc);
    assert PoppedNotSignalled(s) == if OwedToProducers(s) == 1 then {s.owner} else {};
    assert PushedNotSignalled(s) == if OwedToConsumers(s) == 1 then {s.owner} else {};
  }

  /** Whenever a producer is blocked, enough producers have been woken, or are about
      to be by the owner of the mutex, to use up every free slot; and likewise for
      blocked consumers and stored values. While the mutex is free no signal is owed. */
  lemma NoLostWakeup(c: Config, s: State)
    requires Reachable(c, s)
    ensures forall p: nat | p < |s.producers| && s.producers[p].pc.Blocked? ::
              c.bufferSize <= s.ring.count + |BackFromNotFull(s)| + |PoppedNotSignalled(s)|
    ensures forall q: nat | q < |s.consumers| && s.consumers[q].Blocked? ::
              s.ring.count <= |BackFromNotEmpty(s)| + |PushedNotSignalled(s)|
    ensures s.owner == Free ==> PoppedNotSignalled(s) == PushedNotSignalled(s) == {}
  {
    ReachableInv(c, s);
    CreditsAreCounts(s);
    forall p: nat | p < |s.producers| && s.producers[p].pc.Blocked?
      ensures c.bufferSize <= s.ring.count + WokenProducers(s) + OwedToProducers(s)
    {
      assert p in BlockedProducers(s);
    }
    forall q: nat | q < |s.consumers| && s.consumers[q].Blocked?
      ensures s.ring.count <= WokenConsumers(s) + OwedToConsumers(s)
    {
      assert q in BlockedConsumers(s);
    }
    OwedAreOwners(s);
  }

  /** A step of the program itself: not a time-out, not a spurious wake-up. */
  predicate Ordinary(s: State, step: Step) {
    Enabled(s, step) && !External(step)
  }

  /** The owner of the mutex can always go on. */
  lemma OwnerCanStep(c: Config, s: State) returns (step: Step)
    requires Inv(c, s) && s.owner != Free
    ensures Ordinary(s, step)
  {
    match s.owner {
      case ByProducer(p) =>
        assert ProducerHolds(s.producers[p].pc);
        match s.producers[p].pc {
          case Testing(_) => step := TestFull(p);
          case Signalling => step := SignalNotEmpty(p, BlockedConsumers(s));
          case _ => step := UnlockByProducer(p);
        }
      case ByConsumer(q) =>
        assert ConsumerHolds(s.consumers[q]);
        match s.consumers[q] {
          case Testing(_) => step := TestEmpty(q);
          case Signalling => step := SignalNotFull(q, BlockedProducers(s));
          case Leaving => step := Leave(q);
          case _ => step := UnlockByConsumer(q);
        }
      case ByMain =>
        match s.main {
          case SettingFlag => step := SetFinished;
          case Broadcasting => step := Broadcast;
          case _ => step := UnlockByMain;
        }
    }
  }

  predicate ProducerStuck(pc: ProducerPc) {
    pc.Blocked? || pc.Exited?
  }

  predicate ConsumerStuck(pc: ConsumerPc) {
    pc.Blocked? || pc.Exited?
  }

  /** With the mutex free, every thread that is neither blocked nor finished can go on. */
  lemma RunnableThreadCanStep(c: Config, s: State) returns (step: Step)
    requires Inv(c, s) && s.owner == Free
    requires (exists p: nat :: p < |s.producers| && !ProducerStuck(s.producers[p].pc))
          || (exists q: nat :: q < |s.consumers| && !ConsumerStuck(s.consumers[q]))
    ensures Ordinary(s, step)
  {
    if p: nat :| p < |s.producers| && !ProducerStuck(s.producers[p].pc) {
      assert !ProducerHolds(s.producers[p].pc);
      step := if s.producers[p].pc.Preparing? then Prepare(p) else LockByProducer(p);
    } else {
      var q: nat :| q < |s.consumers| && !ConsumerStuck(s.consumers[q]);
      assert !ConsumerHolds(s.consumers[q]);
      step := if s.consumers[q].Processing? then Process(q) else LockByConsumer(q);
    }
  }

  /** With the mutex free and every thread blocked or finished, the two wake-up
      invariants leave no producer blocked: a full buffer and an empty one
      cannot be waited for at once. */
  lemma NoProducerStuckBlocked(c: Config, s: State)
    requires Inv(c, s) && s.owner == Free && !s.finished
    requires forall p: nat | p < |s.producers| :: ProducerStuck(s.producers[p].pc)
    requires forall q: nat | q < |s.consumers| :: ConsumerStuck(s.consumers[q])
    ensures BlockedProducers(s) == {}
  {
    SumOfZeros(ProducerCredits(s.producers));
    SumOfZeros(ConsumerCredits(s.consumers));
    assert 0 in BlockedConsumers(s);
  }

  /** If all threads are blocked or finished, main is not waiting for a blocked one. */
  lemma MainCanStep(c: Config, s: State) returns (step: Step)
    requires Inv(c, s) && s.owner == Free && s.main != Done
    requires forall p: nat | p < |s.producers| :: ProducerStuck(s.producers[p].pc)
    requires forall q: nat | q < |s.consumers| :: ConsumerStuck(s.consumers[q])
    ensures Ordinary(s, step)
  {
    if s.main.JoiningProducers? {
      NoProducerStuckBlocked(c, s);
      assert s.main.k !in BlockedProducers(s);
      step := JoinProducer;
    } else if s.main == WantingMutex {
      step := LockByMain;
    } else {
      assert s.main.k !in BlockedConsumers(s);
      step := JoinConsumer;
    }
  }

  lemma NextStep(c: Config, s: State) returns (step: Step)
    requires Inv(c, s) && s.main != Done
    ensures Ordinary(s, step)
  {
    if s.owner != Free {
      step := OwnerCanStep(c, s);
    } else if (exists p: nat :: p < |s.producers| && !ProducerStuck(s.producers[p].pc))
           || (exists q: nat :: q < |s.consumers| && !ConsumerStuck(s.consumers[q])) {
      step := RunnableThreadCanStep(c, s);
    } else {
      step := MainCanStep(c, s);
    }
  }

  /** No deadlock, without help from time-outs or spurious wake-ups. */
  lemma DeadlockFree(c: Config, s: State)
    requires Reachable(c, s) && s.main != Done
    ensures exists step :: Ordinary(s, step)
  {
    ReachableInv(c, s);
    var step := NextStep(c, s);
  }

  // ---- shutdown ----

  /** Once the flag is set it stays set and nothing more is produced. */
  lemma {:induction false} FlagFreezesProduction(c: Config, s: State, steps: seq<Step>, t: State)
    requires Inv(c, s) && s.finished && Path(c, s, steps, t)
    ensures t.finished && t.pushed == s.pushed && t.ring.produced == s.ring.produced
    decreases |steps|
  {
    if steps != [] {
      StepKeepsInv(c, s, steps[0]);
      FlagFreezesProduction(c, Apply(c, s, steps[0]), steps[1..], t);
    }
  }

  /** After the broadcast no consumer ever blocks again. */
  lemma {:induction false} NoConsumerBlocksAfterBroadcast(c: Config, s: State, steps: seq<Step>, t: State)
    requires Inv(c, s) && HasBroadcast(s.main) && Path(c, s, steps, t)
    ensures forall q: nat | q < |t.consumers| :: !t.consumers[q].Blocked?
    decreases |steps|
  {
    if steps != [] {
      StepKeepsInv(c, s, steps[0]);
      NoConsumerBlocksAfterBroadcast(c, Apply(c, s, steps[0]), steps[1..], t);
    } else {
      forall q: nat | q < |t.consumers|
        ensures !t.consumers[q].Blocked?
      {
        assert q !in BlockedConsumers(t);
      }
    }
  }

  lemma DoneStaysDone(c: Config, s: State, q: nat, step: Step)
    requires Inv(c, s) && q < |s.consumers| && (s.consumers[q].Leaving? || s.consumers[q].Exited?)
    requires Enabled(s, step)
    ensures var t := Apply(c, s, step);
            && t.ring.count == s.ring.count == 0 && t.pushed == s.pushed && t.popped == s.popped
            && |t.consumers| == |s.consumers| && (t.consumers[q].Leaving? || t.consumers[q].Exited?)
  {
  }

  /** A consumer returns only when the buffer is empty and stays empty. */
  lemma {:induction false} ConsumerLeavesOnlyWhenDone(c: Config, s: State, q: nat, steps: seq<Step>, t: State)
    requires Inv(c, s) && q < |s.consumers| && (s.consumers[q].Leaving? || s.consumers[q].Exited?)
    requires Path(c, s, steps, t)
    ensures t.ring.count == 0 && t.pushed == s.pushed && t.popped == s.popped
    decreases |steps|
  {
    if steps != [] {
      StepKeepsInv(c, s, steps[0]);
      DoneStaysDone(c, s, q, steps[0]);
      ConsumerLeavesOnlyWhenDone(c, Apply(c, s, steps[0]), q, steps[1..], t);
    }
  }

  /** Shutdown is safe in every continuation of every reachable state. */
  lemma ShutdownIsSafe(c: Config, s: State, steps: seq<Step>, t: State)
    requires Reachable(c, s) && WellFormed(c, s) && Path(c, s, steps, t)
    ensures s.finished ==> t.finished && t.ring.produced == s.ring.produced
    ensures HasBroadcast(s.main) ==> forall q: nat | q < |t.consumers| :: !t.consumers[q].Blocked?
    ensures (exists q: nat :: q < |s.consumers| && s.consumers[q].Exited?) ==>
              t.ring.count == 0 && t.pushed == s.pushed && t.popped == s.popped
  {
    ReachableInv(c, s);
    if s.finished {
      FlagFreezesProduction(c, s, steps, t);
    }
    if HasBroadcast(s.main) {
      NoConsumerBlocksAfterBroadcast(c, s, steps, t);
    }
    if q: nat :| q < |s.consumers| && s.consumers[q].Exited? {
      ConsumerLeavesOnlyWhenDone(c, s, q, steps, t);
    }
  }

  // ---- the final statistics ----

  /** The values a complete run has to deliver: id * 100 + i for every producer
      id in 1..n and every i below `items`. */
  ghost function AllValues(n: nat, items: nat): multiset<int> {
    if n == 0 then multiset{} else AllValues(n - 1, items) + multiset(seq(items, i => n * 100 + i))
  }

  lemma AllValuesStep(n: nat, items: nat)
    requires 0 < n
    ensures |AllValues(n, items)| == |AllValues(n - 1, items)| + items
  {
    var last := seq(items, i => n * 100 + i);
    assert |multiset(last)| == |last| == items;
  }

  lemma {:induction false} AllValuesCount(n: nat, items: nat)
    ensures |AllValues(n, items)| == items * n
  {
    if n > 0 {
      AllValuesStep(n, items);
      AllValuesCount(n - 1, items);
      Distribute(items, n - 1, 1);
    }
  }

  ghost function UnionOfProjections(items: seq<Item>, n: nat): multiset<int> {
    if n == 0 then multiset{} else UnionOfProjections(items, n - 1) + multiset(Values(Project(items, n - 1)))
  }

  lemma {:induction false} UnionOfProjectionsPush(items: seq<Item>, item: Item, n: nat)
    ensures UnionOfProjections(items + [item], n)
         == UnionOfProjections(items, n) + if item.producer < n then multiset{Value(item)} else multiset{}
  {
    if n > 0 {
      UnionOfProjectionsPush(items, item, n - 1);
      ProjectOfPush(items, item, n - 1);
      ValuesOfPush(Project(items, n - 1), item);
      assert Project(items, n - 1) + [] == Project(items, n - 1);
    }
  }

  lemma {:induction false} UnionOfNothing(n: nat)
    ensures UnionOfProjections([], n) == multiset{}
  {
    if n > 0 {
      UnionOfNothing(n - 1);
    }
  }

  /** Splitting a history by producer loses and invents nothing. */
  lemma {:induction false} ProjectionsPartition(items: seq<Item>, n: nat)
    requires forall k: nat | k < |items| :: items[k].producer < n
    ensures multiset(Values(items)) == UnionOfProjections(items, n)
  {
    if items == [] {
      UnionOfNothing(n);
    } else {
      var init, last := items[..|items| - 1], items[|items| - 1];
      assert items == init + [last];
      ProjectionsPartition(init, n);
      UnionOfProjectionsPush(init, last, n);
      ValuesOfPush(init, last);
    }
  }

  lemma AllValuesOfLast(n: nat, items: nat)
    requires 0 < n
    ensures AllValues(n, items) == AllValues(n - 1, items) + multiset(Values(FirstItems(n - 1, items)))
  {
    assert Values(FirstItems(n - 1, items)) == seq(items, i => n * 100 + i);
  }

  lemma {:induction false} CompleteProjections(items: seq<Item>, n: nat, perProducer: nat)
    requires forall p: nat | p < n :: Project(items, p) == FirstItems(p, perProducer)
    ensures UnionOfProjections(items, n) == AllValues(n, perProducer)
  {
    if n > 0 {
      AllValuesOfLast(n, perProducer);
      CompleteProjections(items, n - 1, perProducer);
    }
  }

  /** When main has joined every thread, every value that the producers made has
      been consumed exactly once, and the final consistency check succeeds. */
  lemma CompleteRunDeliversEverything(c: Config, s: State)
    requires Reachable(c, s) && s.main == Done
    ensures s.ring.produced == s.ring.consumed == c.itemsPerProducer * c.producerCount
    ensures s.ring.count == 0
    ensures multiset(s.popped) == AllValues(c.producerCount, c.itemsPerProducer)
  {
    ReachableInv(c, s);
    assert s.consumers[0].Exited?;
    forall p: nat | p < c.producerCount
      ensures Project(s.pushed, p) == FirstItems(p, c.itemsPerProducer)
    {
      assert s.producers[p].pc.Exited?;
    }
    ProjectionsPartition(s.pushed, c.producerCount);
    CompleteProjections(s.pushed, c.producerCount, c.itemsPerProducer);
    AllValuesCount(c.producerCount, c.itemsPerProducer);
    assert Values(s.pushed) == s.popped;
  }
}
