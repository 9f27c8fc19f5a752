/**
 The object fifo with a producer in one thread and a consumer in another: every read and write of a shared index is a
 step of its own, and the steps of the two interleave in any order. The state carries a history that no step reads: all
 objects committed, how many were freed, and what the consumer saw.
*/
module ObjectFifoRuns {
  import opened ObjectFifo

  /** Where the producer is: in `is_full`, about to take the slot, filling it, or in `commit`. */
  datatype Producer =
    | Ready
    | HeadRead(head: nat, freedThen: nat)
    | BothRead(head: nat, tail: nat, freedThen: nat)
    | Taking
    | Filling(slot: nat)
    | Committing(next: nat)

  /** Where the consumer is: in `view`, looking at an object, or in `deallocate`. */
  datatype Consumer =
    | Idle
    | ViewHead(index: nat, head: nat)
    | ViewBoth(index: nat, head: nat, tail: nat, committedThen: nat)
    | ViewPlace(index: nat)
    | Looking(index: nat, slot: nat)
    | FreeHead(head: nat)
    | FreeBoth(head: nat, tail: nat, committedThen: nat)
    | FreeAgain
    | Freeing(next: nat)

  datatype Seen<T> = Seen(number: nat, item: T)

  datatype State<T> =
    State(buffer: seq<T>, head: nat, tail: nat, producer: Producer, consumer: Consumer,
          committed: seq<T>, freed: nat, seen: seq<Seen<T>>)

  datatype Step<T> =
    | ReadHead
    | ReadTail
    | Decide
    | TakeSlot
    | Fill(item: T)
    | ReadNext
    | Commit
    | View(index: nat)
    | ViewReadTail
    | ViewDecide
    | ViewReadHead
    | Look
    | StopLooking
    | Free
    | FreeReadTail
    | FreeDecide
    | FreeReadHead
    | FreeWrite

  predicate Enabled<T>(s: State<T>, step: Step<T>) {
    match step
    case ReadHead => s.producer.Ready?
    case ReadTail => s.producer.HeadRead?
    case Decide => s.producer.BothRead?
    case TakeSlot => s.producer.Taking?
    case Fill(_) => s.producer.Filling?
    case ReadNext => s.producer.Filling?
    case Commit => s.producer.Committing?
    case View(_) => s.consumer.Idle?
    case ViewReadTail => s.consumer.ViewHead?
    case ViewDecide => s.consumer.ViewBoth?
    case ViewReadHead => s.consumer.ViewPlace?
    case Look => s.consumer.Looking?
    case StopLooking => s.consumer.Looking?
    case Free => s.consumer.Idle?
    case FreeReadTail => s.consumer.FreeHead?
    case FreeDecide => s.consumer.FreeBoth?
    case FreeReadHead => s.consumer.FreeAgain?
    case FreeWrite => s.consumer.Freeing?
  }

  /** Indices stay inside the ring; enough for the steps to make sense. */
  predicate Shaped<T>(s: State<T>) {
    var n := |s.buffer|;
    && s.head < n && s.tail < n
    && (match s.producer
        case BothRead(head, tail, _) => head < n && tail < n
        case Filling(slot) => slot < n
        case _ => true)
    && (match s.consumer
        case ViewBoth(_, head, tail, _) => head < n && tail < n
        case Looking(_, slot) => slot < n
        case FreeBoth(head, tail, _) => head < n && tail < n
        case _ => true)
  }

  /** One step, by whichever thread. */
  function Do<T>(s: State<T>, step: Step<T>): State<T>
    requires Shaped(s) && Enabled(s, step)
  {
    var n := |s.buffer|;
    match step
    case ReadHead => s.(producer := HeadRead(s.head, s.freed))
    case ReadTail => s.(producer := BothRead(s.producer.head, s.tail, s.producer.freedThen))
    case Decide =>
      if Count(n, s.producer.head, s.producer.tail) >= n - 1 then s.(producer := Ready) else s.(producer := Taking)
    case TakeSlot => s.(producer := Filling(s.tail))
    case Fill(item) => s.(buffer := s.buffer[s.producer.slot := item])
    case ReadNext => s.(producer := Committing(Next(n, s.tail)))
    case Commit => s.(tail := s.producer.next, producer := Ready, committed := s.committed + [s.buffer[s.tail]])
    case View(index) => s.(consumer := ViewHead(index, s.head))
    case ViewReadTail =>
      s.(consumer := ViewBoth(s.consumer.index, s.consumer.head, s.tail, |s.committed|))
    case ViewDecide =>
      if s.consumer.index >= Count(n, s.consumer.head, s.consumer.tail) then s.(consumer := Idle)
      else s.(consumer := ViewPlace(s.consumer.index))
    case ViewReadHead => s.(consumer := Looking(s.consumer.index, (s.head + s.consumer.index) % n))
    case Look => s.(seen := s.seen + [Seen(s.freed + s.consumer.index, s.buffer[s.consumer.slot])])
    case StopLooking => s.(consumer := Idle)
    case Free => s.(consumer := FreeHead(s.head))
    case FreeReadTail => s.(consumer := FreeBoth(s.consumer.head, s.tail, |s.committed|))
    case FreeDecide => if s.consumer.head == s.consumer.tail then s.(consumer := Idle) else s.(consumer := FreeAgain)
    case FreeReadHead => s.(consumer := Freeing(Next(n, s.head)))
    case FreeWrite => s.(head := s.consumer.next, consumer := Idle, freed := s.freed + 1)
  }

  predicate IsStart<T>(s: State<T>) {
    && |s.buffer| >= 1 && s.head == 0 && s.tail == 0 && s.producer == Ready && s.consumer == Idle
    && s.committed == [] && s.freed == 0 && s.seen == []
  }

  // ---------------------------------------------------------------- the invariant

  /** Committed and not yet freed. */
  function Queued<T>(s: State<T>): (queue: seq<T>)
    requires s.freed <= |s.committed|
  {
    s.committed[s.freed..]
  }

  /** The ring holds the queue. */
  ghost predicate RingHolds<T>(s: State<T>) {
    && Shaped(s) && s.freed <= |s.committed| && |Queued(s)| < |s.buffer|
    && Holds(s.buffer, s.head, Queued(s)) && s.tail == Place(|s.buffer|, s.head, |Queued(s)|)
  }

  /** What the producer has read may be out of date, but only in that more has been freed since. */
  ghost predicate ProducerKnows<T>(s: State<T>)
    requires RingHolds(s)
  {
    var n := |s.buffer|;
    match s.producer
    case Ready => true
    case HeadRead(head, freedThen) =>
      && freedThen <= s.freed && head < n && |s.committed| - freedThen < n
      && s.tail == Place(n, head, |s.committed| - freedThen)
    case BothRead(head, tail, freedThen) =>
      && freedThen <= s.freed && |s.committed| - freedThen < n
      && tail == s.tail == Place(n, head, |s.committed| - freedThen)
    case Taking => |Queued(s)| + 1 < n
    case Filling(slot) => |Queued(s)| + 1 < n && slot == s.tail
    case Committing(next) => |Queued(s)| + 1 < n && next == Next(n, s.tail)
  }

  /** What the consumer has read may be out of date, but only in that more has been committed since. */
  ghost predicate ConsumerKnows<T>(s: State<T>)
    requires RingHolds(s)
  {
    var n := |s.buffer|;
    match s.consumer
    case Idle => true
    case ViewHead(_, head) => head == s.head
    case ViewBoth(_, head, tail, known) =>
      && head == s.head && s.freed <= known <= |s.committed| && known - s.freed < n
      && tail == Place(n, head, known - s.freed)
    case ViewPlace(index) => index < |Queued(s)|
    case Looking(index, slot) => index < |Queued(s)| && slot == Place(n, s.head, index)
    case FreeHead(head) => head == s.head
    case FreeBoth(head, tail, known) =>
      && head == s.head && s.freed <= known <= |s.committed| && known - s.freed < n
      && tail == Place(n, head, known - s.freed)
    case FreeAgain => Queued(s) != []
    case Freeing(next) => Queued(s) != [] && next == Next(n, s.head)
  }

  /** Everything the consumer saw was the committed object of that number. */
  ghost predicate SeenRight<T>(s: State<T>) {
    forall i :: 0 <= i < |s.seen| ==> s.seen[i].number < |s.committed| && s.seen[i].item == s.committed[s.seen[i].number]
  }

  ghost predicate Invariant<T>(s: State<T>) {
    RingHolds(s) && ProducerKnows(s) && ConsumerKnows(s) && SeenRight(s)
  }

  /** The count taken from two readings. */
  lemma CountOf(size: nat, head: nat, n: nat)
    requires head < size && n < size
    ensures Count(size, head, Place(size, head, n)) == n
  {
  }

  lemma StartIsInvariant<T>(s: State<T>)
    requires IsStart(s)
    ensures Invariant(s)
  {
  }

  /** The steps that only read and decide. */
  predicate IsReading<T>(step: Step<T>) {
    !step.Fill? && !step.Commit? && !step.Look? && !step.FreeWrite?
  }

  lemma ReadingKeeps<T>(s: State<T>, step: Step<T>)
    requires Invariant(s) && Enabled(s, step) && IsReading(step)
    ensures Invariant(Do(s, step)) && Do(s, step).committed == s.committed && Do(s, step).freed == s.freed
  {
    hide Holds, SeenRight, ProducerKnows, ConsumerKnows;
    if step.ReadHead? || step.ReadTail? || step.Decide? || step.TakeSlot? || step.ReadNext? {
      ProducerReads(s, step);
    } else {
      ConsumerReads(s, step);
    }
  }

  /** What one thread knows does not depend on where the other one is. */
  lemma ProducerReads<T>(s: State<T>, step: Step<T>)
    requires Invariant(s) && Enabled(s, step)
    requires step.ReadHead? || step.ReadTail? || step.Decide? || step.TakeSlot? || step.ReadNext?
    ensures var s' := Do(s, step);
            && s' == s.(producer := s'.producer) && Shaped(s') && RingHolds(s')
            && ProducerKnows(s') && ConsumerKnows(s') && SeenRight(s')
  {
    hide Holds;
    if step.Decide? {
      CountOf(|s.buffer|, s.producer.head, |s.committed| - s.producer.freedThen);
    }
    SeenStays(s, Do(s, step));
  }

  lemma ConsumerReads<T>(s: State<T>, step: Step<T>)
    requires Invariant(s) && Enabled(s, step) && IsReading(step)
    requires !(step.ReadHead? || step.ReadTail? || step.Decide? || step.TakeSlot? || step.ReadNext?)
    ensures var s' := Do(s, step);
            && s' == s.(consumer := s'.consumer) && Shaped(s') && RingHolds(s')
            && ProducerKnows(s') && ConsumerKnows(s') && SeenRight(s')
  {
    hide Holds, SeenRight;
    if step.ViewDecide? || step.FreeDecide? {
      CountOf(|s.buffer|, s.consumer.head, s.consumer.committedThen - s.freed);
    } else if step.ViewReadHead? {
      PlaceByRemainder(|s.buffer|, s.head, s.consumer.index);
    }
    SeenStays(s, Do(s, step));
  }

  lemma SeenStays<T>(s: State<T>, s': State<T>)
    requires SeenRight(s) && s'.seen == s.seen && s'.committed == s.committed
    ensures SeenRight(s')
  {
  }

  lemma FillKeeps<T>(s: State<T>, item: T)
    requires Invariant(s) && s.producer.Filling?
    ensures Invariant(Do(s, Fill(item))) && Do(s, Fill(item)).committed == s.committed
  {
    HoldsOneMore(s.buffer, s.head, Queued(s), item);
  }

  lemma CommitKeeps<T>(s: State<T>)
    requires Invariant(s) && s.producer.Committing?
    ensures Invariant(Do(s, Commit)) && Queued(Do(s, Commit)) == Queued(s) + [s.buffer[s.tail]]
  {
    var s' := Do(s, Commit);
    var item := s.buffer[s.tail];
    HoldsOneMore(s.buffer, s.head, Queued(s), item);
    assert Queued(s') == Queued(s) + [item];
    assert forall i :: 0 <= i < |s.committed| ==> s'.committed[i] == s.committed[i];
  }

  lemma LookKeeps<T>(s: State<T>)
    requires Invariant(s) && s.consumer.Looking?
    ensures Invariant(Do(s, Look))
    ensures s.buffer[s.consumer.slot] == s.committed[s.freed + s.consumer.index]
  {
    assert s.buffer[Place(|s.buffer|, s.head, s.consumer.index)] == Queued(s)[s.consumer.index];
  }

  lemma FreeKeeps<T>(s: State<T>)
    requires Invariant(s) && s.consumer.Freeing?
    ensures Invariant(Do(s, FreeWrite)) && Queued(Do(s, FreeWrite)) == Queued(s)[1..]
    ensures s.buffer[s.head] == s.committed[s.freed]
  {
    HoldsOneLess(s.buffer, s.head, Queued(s));
    assert Queued(Do(s, FreeWrite)) == Queued(s)[1..];
  }

  /** Every step of either thread keeps the invariant. */
  lemma StepKeeps<T>(s: State<T>, step: Step<T>)
    requires Invariant(s) && Enabled(s, step)
    ensures Invariant(Do(s, step))
  {
    hide Invariant;
    if IsReading(step) {
      ReadingKeeps(s, step);
    } else {
      match step {
        case Fill(item) => FillKeeps(s, item);
        case Commit => CommitKeeps(s);
        case Look => LookKeeps(s);
        case FreeWrite => FreeKeeps(s);
      }
    }
  }

  // ---------------------------------------------------------------- whole runs

  /** The states of a run, each reached from the one before by the step between them. */
  ghost predicate IsRun<T>(states: seq<State<T>>, steps: seq<Step<T>>) {
    && |states| == |steps| + 1 && IsStart(states[0])
    && forall i :: 0 <= i < |steps| ==>
         Shaped(states[i]) && Enabled(states[i], steps[i]) && states[i + 1] == Do(states[i], steps[i])
  }

  lemma {:induction false} RunsKeep<T>(states: seq<State<T>>, steps: seq<Step<T>>, k: nat)
    requires IsRun(states, steps) && k < |states|
    ensures Invariant(states[k])
    decreases k
  {
    hide Invariant, Do, Enabled, Shaped, IsStart;
    if k == 0 {
      StartIsInvariant(states[0]);
    } else {
      RunsKeep(states, steps, k - 1);
      StepKeeps(states[k - 1], steps[k - 1]);
    }
  }

  /** The steps of a queue of bounded length. */
  ghost predicate QueueStep<T>(size: nat, before: seq<T>, after: seq<T>) {
    || after == before
    || (|before| + 1 < size && |after| == |before| + 1 && after[..|before|] == before)
    || (before != [] && after == before[1..])
  }

  /**
   In every run, whatever the interleaving: the fifo is a bounded queue, the slot being filled holds no queued object,
   and whatever the consumer sees is the committed object of that number.
  */
  lemma EveryRun<T>(states: seq<State<T>>, steps: seq<Step<T>>, k: nat)
    requires IsRun(states, steps) && k < |steps|
    ensures RingHolds(states[k]) && RingHolds(states[k + 1])
    ensures QueueStep(|states[k].buffer|, Queued(states[k]), Queued(states[k + 1]))
    ensures states[k].committed <= states[k + 1].committed && states[k].freed <= states[k + 1].freed
    ensures SeenRight(states[k + 1])
    ensures states[k].producer.Filling? ==>
              forall i :: 0 <= i < |Queued(states[k])| ==>
                Place(|states[k].buffer|, states[k].head, i) != states[k].producer.slot
  {
    hide Do;
    var s, s' := states[k], states[k + 1];
    RunsKeep(states, steps, k);
    RunsKeep(states, steps, k + 1);
    OneStep(s, steps[k]);
  }

  lemma OneStep<T>(s: State<T>, step: Step<T>)
    requires Invariant(s) && Enabled(s, step) && Invariant(Do(s, step))
    ensures QueueStep(|s.buffer|, Queued(s), Queued(Do(s, step)))
    ensures s.committed <= Do(s, step).committed && s.freed <= Do(s, step).freed
  {
    if IsReading(step) {
      ReadingKeeps(s, step);
    } else if step.Commit? {
      CommitKeeps(s);
    } else if step.FreeWrite? {
      FreeKeeps(s);
    }
  }

  /** The producer is refused only if the fifo was full when it read the head. */
  lemma RefusedOnlyWhenFull<T>(s: State<T>)
    requires Invariant(s) && s.producer.BothRead?
    ensures Do(s, Decide).producer.Ready? <==> |s.committed| - s.producer.freedThen == |s.buffer| - 1
  {
    CountOf(|s.buffer|, s.producer.head, |s.committed| - s.producer.freedThen);
  }

  /** The consumer is refused exactly when there were too few objects as it read the tail. */
  lemma ViewedOnlyWhenCommitted<T>(s: State<T>)
    requires Invariant(s) && s.consumer.ViewBoth?
    ensures Do(s, ViewDecide).consumer.Idle? <==> s.freed + s.consumer.index >= s.consumer.committedThen
  {
    CountOf(|s.buffer|, s.consumer.head, s.consumer.committedThen - s.freed);
  }
}
