/** condition_variable.cpp: one thread pushes 0, 1, ..., last into a queue, notifying after each; the
    other waits on the condition variable, takes the front and stops after last. Every lock, push,
    unlock, notification, test, pop and print is a step of its own, and the two threads' steps
    interleave freely. */
module ProducerConsumer {

  /** Where the producer is in its loop; it owns the mutex in Locked and Pushed. */
  datatype Producer = Outside | Locked | Pushed | Unlocked | Finished

  /** Where the consumer is in its loop; it owns the mutex in Testing, Ready and Popped. Waiting is
      inside wait, asleep; Woken is still inside wait, on the way to reacquire the mutex. */
  datatype Consumer = ToLock | Testing | Waiting | Woken | Ready | Popped(front: nat) | Printing(value: nat) | Done

  datatype Owner = Nobody | TheProducer | TheConsumer

  datatype State = State(
    i: nat,               // the producer's loop variable
    producer: Producer,
    consumer: Consumer,
    owner: Owner,         // of the mutex
    queue: seq<nat>,
    printed: seq<nat>)    // what the consumer has put out

  /** A step of a thread, or a wake-up that nobody asked for. */
  datatype Action = Produce | Consume | Spurious

  function Initial(): State {
    State(0, Outside, ToLock, Nobody, [], [])
  }

  predicate Enabled(s: State, a: Action) {
    match a
    case Produce => s.producer != Finished && (s.producer == Outside ==> s.owner == Nobody)
    case Consume =>
      && s.consumer != Waiting && s.consumer != Done
      && (s.consumer == ToLock || s.consumer == Woken ==> s.owner == Nobody)
      && (s.consumer == Ready ==> s.queue != [])
    case Spurious => s.consumer == Waiting
  }

  function Apply(last: nat, s: State, a: Action): State
    requires Enabled(s, a)
  {
    match a
    case Produce => ProducerStep(last, s)
    case Consume => ConsumerStep(last, s)
    case Spurious => s.(consumer := Woken)
  }

  /** The for loop. notify_one wakes the consumer only if it is asleep at that moment. */
  function ProducerStep(last: nat, s: State): State
    requires Enabled(s, Produce)
  {
    match s.producer
    case Outside => s.(producer := Locked, owner := TheProducer)
    case Locked => s.(producer := Pushed, queue := s.queue + [s.i])
    case Pushed => s.(producer := Unlocked, owner := Nobody)
    case Unlocked => s.(
      consumer := if s.consumer == Waiting then Woken else s.consumer,
      i := s.i + 1,
      producer := if s.i + 1 <= last then Outside else Finished)
  }

  /** The while loop. Going to sleep gives the mutex back in the same step. */
  function ConsumerStep(last: nat, s: State): State
    requires Enabled(s, Consume)
  {
    match s.consumer
    case ToLock => s.(consumer := Testing, owner := TheConsumer)
    case Woken => s.(consumer := Testing, owner := TheConsumer)
    case Testing => if s.queue == [] then s.(consumer := Waiting, owner := Nobody) else s.(consumer := Ready)
    case Ready => s.(consumer := Popped(s.queue[0]), queue := s.queue[1..])
    case Popped(front) => s.(consumer := Printing(front), owner := Nobody)
    case Printing(value) => s.(consumer := if value == last then Done else ToLock, printed := s.printed + [value])
  }

  /** The state after a run, if every action in it could be taken. */
  predicate PossibleRun(last: nat, run: seq<Action>)
    decreases |run|, 0
  {
    run == [] ||
    (PossibleRun(last, run[..|run| - 1]) && Enabled(After(last, run[..|run| - 1]), run[|run| - 1]))
  }

  function After(last: nat, run: seq<Action>): State
    requires PossibleRun(last, run)
    decreases |run|, 1
  {
    if run == [] then Initial() else Apply(last, After(last, run[..|run| - 1]), run[|run| - 1])
  }

  /** 0, 1, ..., n - 1. */
  function FirstNumbers(n: nat): seq<nat> {
    seq(n, k => k)
  }

  function PushedSoFar(s: State): nat {
    if s.producer == Pushed || s.producer == Unlocked then s.i + 1 else s.i
  }

  function InHand(c: Consumer): seq<nat> {
    match c
    case Popped(front) => [front]
    case Printing(value) => [value]
    case _ => []
  }

  /** What is printed, in the consumer's hands and in the queue, in this order, is what was pushed. */
  ghost predicate InOrder(s: State) {
    s.printed + InHand(s.consumer) + s.queue == FirstNumbers(PushedSoFar(s))
  }

  /** The mutex has the owner that the threads' positions say. */
  predicate Exclusive(s: State) {
    && (s.owner == TheProducer <==> s.producer == Locked || s.producer == Pushed)
    && (s.owner == TheConsumer <==> s.consumer == Testing || s.consumer == Ready || s.consumer.Popped?)
  }

  /** A consumer asleep beside a non-empty queue is about to be notified. */
  predicate WillBeNotified(s: State) {
    s.consumer == Waiting && s.queue != [] ==> s.producer == Pushed || s.producer == Unlocked
  }

  predicate LoopsInStep(last: nat, s: State) {
    && s.i <= last + 1
    && (s.producer == Finished <==> s.i == last + 1)
    && (s.consumer == Ready ==> s.queue != [])
    && (s.consumer == Done <==> |s.printed| == last + 1)
  }

  ghost predicate Inv(last: nat, s: State) {
    InOrder(s) && Exclusive(s) && WillBeNotified(s) && LoopsInStep(last, s)
  }

  lemma ProducerKeepsInv(last: nat, s: State)
    requires Inv(last, s) && Enabled(s, Produce)
    ensures Inv(last, ProducerStep(last, s))
  {
    if s.producer == Locked {
      assert FirstNumbers(s.i + 1) == FirstNumbers(s.i) + [s.i];
      assert s.printed + InHand(s.consumer) + (s.queue + [s.i]) == s.printed + InHand(s.consumer) + s.queue + [s.i];
    }
  }

  lemma ConsumerKeepsInv(last: nat, s: State)
    requires Inv(last, s) && Enabled(s, Consume)
    ensures Inv(last, ConsumerStep(last, s))
  {
    var t := ConsumerStep(last, s);
    var all := s.printed + InHand(s.consumer) + s.queue;
    assert |all| == PushedSoFar(s) <= last + 1;
    if s.consumer.Ready? {
      assert s.queue == [s.queue[0]] + s.queue[1..];
    } else if s.consumer.Printing? {
      assert all[|s.printed|] == s.consumer.value == |s.printed|;
    }
    assert t.printed + InHand(t.consumer) + t.queue == all;
  }

  lemma {:induction false} RunKeepsInv(last: nat, run: seq<Action>)
    requires PossibleRun(last, run)
    ensures Inv(last, After(last, run))
  {
    if run != [] {
      RunKeepsInv(last, run[..|run| - 1]);
      var s := After(last, run[..|run| - 1]);
      match run[|run| - 1]
      case Produce => ProducerKeepsInv(last, s);
      case Consume => ConsumerKeepsInv(last, s);
      case Spurious =>
    }
  }

  /** Exactly-once delivery in order: whatever the interleaving, the output so far is 0, 1, 2, ... and
      the queue holds the numbers that follow, up to the last one pushed. */
  lemma DeliveredInOrder(last: nat, run: seq<Action>)
    requires PossibleRun(last, run)
    ensures var s := After(last, run);
            && s.printed + InHand(s.consumer) + s.queue == FirstNumbers(PushedSoFar(s))
            && s.printed == FirstNumbers(|s.printed|)
            && |s.printed| <= PushedSoFar(s) <= last + 1
  {
    RunKeepsInv(last, run);
    var s := After(last, run);
    var all := s.printed + InHand(s.consumer) + s.queue;
    assert s.printed == all[..|s.printed|] == FirstNumbers(|s.printed|);
  }

  /** The queue is never in both threads' hands, and a consumer that sleeps beside a non-empty queue
      has a producer on its way to notify it: no wake-up is lost. */
  lemma NoLostWakeUp(last: nat, run: seq<Action>)
    requires PossibleRun(last, run)
    ensures var s := After(last, run);
            && !((s.producer == Locked || s.producer == Pushed) && (s.consumer == Testing || s.consumer == Ready || s.consumer.Popped?))
            && (s.consumer == Waiting && s.queue != [] ==> s.producer == Pushed || s.producer == Unlocked)
  {
    RunKeepsInv(last, run);
  }

  /** As long as one of the threads has not returned, one of them can move without a spurious
      wake-up; when neither can, everything has been printed. */
  lemma NeverStuck(last: nat, run: seq<Action>)
    requires PossibleRun(last, run)
    ensures var s := After(last, run);
            !Enabled(s, Produce) && !Enabled(s, Consume) <==>
            s.producer == Finished && s.consumer == Done
    ensures var s := After(last, run);
            s.consumer == Done ==> s.printed == FirstNumbers(last + 1) && s.queue == []
  {
    RunKeepsInv(last, run);
    DeliveredInOrder(last, run);
    var s := After(last, run);
    assert |s.printed + InHand(s.consumer) + s.queue| == PushedSoFar(s);
  }

  /** How many steps are left, when every notification may send the consumer round once more. */
  function ProducerLeft(last: nat, s: State): int {
    match s.producer
    case Outside => 4 * (last + 1 - s.i)
    case Locked => 4 * (last + 1 - s.i) - 1
    case Pushed => 4 * (last + 1 - s.i) - 2
    case Unlocked => 4 * (last + 1 - s.i) - 3
    case Finished => 0
  }

  function ConsumerLeft(c: Consumer): nat {
    match c
    case ToLock => 6
    case Woken => 6
    case Testing => 5
    case Ready => 4
    case Popped(_) => 3
    case Printing(_) => 2
    case Waiting => 0
    case Done => 0
  }

  function Left(last: nat, s: State): int {
    7 * ProducerLeft(last, s) + 7 * (last + 1 - |s.printed|) + ConsumerLeft(s.consumer)
  }

  function SpuriousIn(run: seq<Action>): nat {
    if run == [] then 0 else SpuriousIn(run[..|run| - 1]) + (if run[|run| - 1] == Spurious then 1 else 0)
  }

  /** Every step but a spurious wake-up leaves fewer. */
  lemma StepsRunOut(last: nat, s: State, a: Action)
    requires Inv(last, s) && Enabled(s, a)
    ensures Left(last, Apply(last, s, a)) <= Left(last, s) + if a == Spurious then 6 else -1
  {
  }

  lemma LeftIsNatural(last: nat, s: State)
    requires Inv(last, s)
    ensures Left(last, s) >= 0
  {
    assert |s.printed| <= |s.printed + InHand(s.consumer) + s.queue| == PushedSoFar(s);
  }

  /** No run goes on forever unless the system keeps waking the consumer for nothing: apart from seven
      steps for each such wake-up, a run has at most 35 (last + 1) + 6 steps. With NeverStuck: once they
      are taken, both threads have returned and the output is complete. */
  lemma {:induction false} RunsAreShort(last: nat, run: seq<Action>)
    requires PossibleRun(last, run)
    ensures |run| + Left(last, After(last, run)) <= 35 * (last + 1) + 6 + 7 * SpuriousIn(run)
    ensures |run| <= 35 * (last + 1) + 6 + 7 * SpuriousIn(run)
  {
    RunKeepsInv(last, run);
    LeftIsNatural(last, After(last, run));
    if run != [] {
      var before := run[..|run| - 1];
      RunsAreShort(last, before);
      RunKeepsInv(last, before);
      StepsRunOut(last, After(last, before), run[|run| - 1]);
    }
  }

  // ---------- whole turns of the loops ----------

  /** `acts`, one after the other with nothing in between, lead from `s` to `s'`. */
  predicate LeadsTo(last: nat, s: State, acts: seq<Action>, s': State)
    decreases |acts|
  {
    if acts == [] then s' == s
    else Enabled(s, acts[0]) && LeadsTo(last, Apply(last, s, acts[0]), acts[1..], s')
  }

  /** At the lock with the mutex free, the producer pushes its number, frees the mutex and wakes a sleeping
      consumer by its own steps. */
  lemma ProducerTurn(last: nat, s: State)
    requires s.producer == Outside && s.owner == Nobody
    ensures LeadsTo(last, s, [Produce, Produce, Produce, Produce],
                    s.(queue := s.queue + [s.i], i := s.i + 1,
                       producer := if s.i < last then Outside else Finished,
                       consumer := if s.consumer == Waiting then Woken else s.consumer))
  {
    var s1 := ProducerStep(last, s);
    var s2 := ProducerStep(last, s1);
    var s3 := ProducerStep(last, s2);
    var s4 := ProducerStep(last, s3);
    assert LeadsTo(last, s4, [], s4);
    assert LeadsTo(last, s3, [Produce], s4);
    assert LeadsTo(last, s2, [Produce, Produce], s4);
    assert LeadsTo(last, s1, [Produce, Produce, Produce], s4);
  }

  /** At the lock with the mutex free, coming or woken up, the consumer prints the front of the queue by its
      own steps, and stops exactly if that was the last number. */
  lemma ConsumerTurn(last: nat, s: State)
    requires (s.consumer == ToLock || s.consumer == Woken) && s.owner == Nobody && s.queue != []
    ensures LeadsTo(last, s, [Consume, Consume, Consume, Consume, Consume],
                    s.(queue := s.queue[1..], printed := s.printed + [s.queue[0]],
                       consumer := if s.queue[0] == last then Done else ToLock))
  {
    var s1 := ConsumerStep(last, s);
    var s2 := ConsumerStep(last, s1);
    var s3 := ConsumerStep(last, s2);
    var s4 := ConsumerStep(last, s3);
    var s5 := ConsumerStep(last, s4);
    assert LeadsTo(last, s5, [], s5);
    assert LeadsTo(last, s4, [Consume], s5);
    assert LeadsTo(last, s3, [Consume, Consume], s5);
    assert LeadsTo(last, s2, [Consume, Consume, Consume], s5);
    assert LeadsTo(last, s1, [Consume, Consume, Consume, Consume], s5);
  }

  /** With an empty queue it falls asleep instead and leaves the mutex free; asleep it has no step. */
  lemma ConsumerSleeps(last: nat, s: State)
    requires (s.consumer == ToLock || s.consumer == Woken) && s.owner == Nobody && s.queue == []
    ensures LeadsTo(last, s, [Consume, Consume], s.(consumer := Waiting))
    ensures !Enabled(s.(consumer := Waiting), Consume)
  {
    var s1 := ConsumerStep(last, s);
    var s2 := ConsumerStep(last, s1);
    assert LeadsTo(last, s2, [], s2);
    assert LeadsTo(last, s1, [Consume], s2);
  }

  // ---------- the program ----------

  /** The shared variables and the two threads, taken one step at a time. */
  class Program {
    const last: nat
    var i: nat
    var producer: Producer
    var consumer: Consumer
    var owner: Owner
    var data_queue: seq<nat>
    var printed: seq<nat>

    function View(): State
      reads this
    {
      State(i, producer, consumer, owner, data_queue, printed)
    }

    constructor (last: nat)
      ensures this.last == last && View() == Initial()
    {
      this.last := last;
      i, producer, consumer, owner, data_queue, printed := 0, Outside, ToLock, Nobody, [], [];
    }

    /** data_preparation_thread moves on by one step. */
    method DataPreparation()
      requires Enabled(View(), Produce)
      modifies this
      ensures View() == ProducerStep(last, old(View()))
    {
      match producer
      case Outside =>
        producer, owner := Locked, TheProducer;
      case Locked =>
        data_queue := data_queue + [i];
        producer := Pushed;
      case Pushed =>
        producer, owner := Unlocked, Nobody;
      case Unlocked =>
        if consumer == Waiting {
          consumer := Woken;
        }
        i := i + 1;
        producer := if i <= last then Outside else Finished;
    }

    /** data_processing_thread moves on by one step. */
    method DataProcessing()
      requires Enabled(View(), Consume)
      modifies this
      ensures View() == ConsumerStep(last, old(View()))
    {
      match consumer
      case ToLock =>
        consumer, owner := Testing, TheConsumer;
      case Woken =>
        consumer, owner := Testing, TheConsumer;
      case Testing =>
        if data_queue == [] {
          consumer, owner := Waiting, Nobody;
        } else {
          consumer := Ready;
        }
      case Ready =>
        consumer := Popped(data_queue[0]);
        data_queue := data_queue[1..];
      case Popped(front) =>
        consumer, owner := Printing(front), Nobody;
      case Printing(value) =>
        printed := printed + [value];
        consumer := if value == last then Done else ToLock;
    }

    method Act(a: Action)
      requires Enabled(View(), a)
      modifies this
      ensures View() == Apply(last, old(View()), a)
    {
      match a
      case Produce => DataPreparation();
      case Consume => DataProcessing();
      case Spurious => consumer := Woken;
    }

    /** One more action, while some are left and `budget` wake-ups without a reason. */
    method Continue(next: Action, ghost run: seq<Action>, budget: nat) returns (budget': nat)
      requires PossibleRun(last, run) && View() == After(last, run) && Enabled(View(), next)
      requires next == Spurious ==> budget > 0
      modifies this
      ensures PossibleRun(last, run + [next]) && View() == After(last, run + [next])
      ensures SpuriousIn(run + [next]) + budget' == SpuriousIn(run) + budget
      ensures 0 <= 7 * budget' + Left(last, View()) < 7 * budget + Left(last, old(View()))
    {
      RunKeepsInv(last, run);
      StepsRunOut(last, View(), next);
      assert (run + [next])[..|run|] == run;
      Act(next);
      budget' := if next == Spurious then budget - 1 else budget;
      RunKeepsInv(last, run + [next]);
      LeftIsNatural(last, View());
    }

    /** Both threads run to their ends, whatever a scheduler does that lets somebody move and wakes the
        consumer without a reason at most `spurious` times. */
    method Execute(scheduler: nat -> Action, spurious: nat) returns (run: seq<Action>)
      requires View() == Initial()
      modifies this
      ensures PossibleRun(last, run) && View() == After(last, run)
      ensures producer == Finished && consumer == Done
      ensures printed == FirstNumbers(last + 1) && data_queue == []
      ensures |run| <= 35 * (last + 1) + 6 + 7 * spurious
    {
      run := [];
      var budget: nat := spurious;
      while Enabled(View(), Produce) || Enabled(View(), Consume)
        invariant PossibleRun(last, run) && View() == After(last, run)
        invariant SpuriousIn(run) + budget == spurious
        decreases 7 * budget + Left(last, View())
      {
        var next := scheduler(|run|);
        if !Enabled(View(), next) || (next == Spurious && budget == 0) {
          next := if Enabled(View(), Produce) then Produce else Consume;
        }
        RunsAreShort(last, run);
        budget := Continue(next, run, budget);
        run := run + [next];
      }
      NeverStuck(last, run);
      RunsAreShort(last, run);
    }
  }
}
