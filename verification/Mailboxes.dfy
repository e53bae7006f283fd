/**
 * The cross-thread mailboxes of gateway.cpp and database.cpp: a queue and an eventfd counter under
 * one mutex. The lock-step machine below interleaves any number of producers with the draining
 * callback, one primitive operation at a time, and is proved to refine a mailbox whose two
 * operations are atomic. The rest of the model uses the atomic one.
 */
module Mailboxes {

  /** Where the thread inside the critical section stands; a blocked thread has not moved. */
  datatype Section<T> = Free | ToPush(item: T) | ToSignal | ToRelease | ToRead | ToPop(left: nat)

  /** `enqueued` and `drained` record history; `fault` says that `front()` was called on an empty queue. */
  datatype Box<T> = Box(queue: seq<T>, counter: nat, section: Section<T>,
                        enqueued: seq<T>, drained: seq<T>, fault: bool)

  datatype Action<T> = Acquire(item: T) | Push | Signal | Release
                     | AcquireDrain | ReadCounter | Pop | ReleaseDrain

  function Initial<T>(): Box<T> {
    Box([], 0, Free, [], [], false)
  }

  /** `ReadCounter` on a zero eventfd blocks; nothing guards `Pop` except its own loop bound. */
  predicate Enabled<T>(b: Box<T>, a: Action<T>) {
    match a
    case Acquire(_) => b.section.Free?
    case Push => b.section.ToPush?
    case Signal => b.section.ToSignal?
    case Release => b.section.ToRelease?
    case AcquireDrain => b.section.Free?
    case ReadCounter => b.section.ToRead? && b.counter > 0
    case Pop => b.section.ToPop? && b.section.left > 0
    case ReleaseDrain => b.section.ToPop? && b.section.left == 0
  }

  function Step<T>(b: Box<T>, a: Action<T>): (r: Box<T>)
    requires Enabled(b, a)
  {
    match a
    case Acquire(x) => b.(section := ToPush(x))
    case Push => b.(queue := b.queue + [b.section.item], enqueued := b.enqueued + [b.section.item], section := ToSignal)
    case Signal => b.(counter := b.counter + 1, section := ToRelease)
    case Release => b.(section := Free)
    case AcquireDrain => b.(section := ToRead)
    case ReadCounter => b.(counter := 0, section := ToPop(b.counter))
    case Pop =>
      if b.queue == [] then b.(fault := true)
      else b.(queue := b.queue[1..], drained := b.drained + [b.queue[0]], section := ToPop(b.section.left - 1))
    case ReleaseDrain => b.(section := Free)
  }

  predicate Runs<T>(b: Box<T>, acts: seq<Action<T>>)
    decreases |acts|
  {
    acts == [] || (Enabled(b, acts[0]) && Runs(Step(b, acts[0]), acts[1..]))
  }

  function Exec<T>(b: Box<T>, acts: seq<Action<T>>): (r: Box<T>)
    requires Runs(b, acts)
    decreases |acts|
  {
    if acts == [] then b else Exec(Step(b, acts[0]), acts[1..])
  }

  /** What holds between any two primitive operations. */
  predicate Inv<T(==)>(b: Box<T>) {
    && !b.fault
    && b.drained + b.queue == b.enqueued
    && match b.section
       case Free => b.counter == |b.queue|
       case ToPush(_) => b.counter == |b.queue|
       case ToSignal => b.counter + 1 == |b.queue|
       case ToRelease => b.counter == |b.queue|
       case ToRead => b.counter == |b.queue|
       case ToPop(left) => b.counter == 0 && left == |b.queue|
  }

  lemma StepKeepsInv<T>(b: Box<T>, a: Action<T>)
    requires Inv(b) && Enabled(b, a)
    ensures Inv(Step(b, a))
  {
  }

  /** The simple mailbox: a post appends, a take empties the queue into the consumed items. */
  datatype Atomic<T> = Atomic(queue: seq<T>, taken: seq<T>)
  datatype Effect<T> = Post(item: T) | TakeAll | Stutter

  function Apply<T>(s: Atomic<T>, e: Effect<T>): Atomic<T> {
    match e
    case Post(x) => Atomic(s.queue + [x], s.taken)
    case TakeAll => Atomic([], s.taken + s.queue)
    case Stutter => s
  }

  /** A drain takes effect when it reads the counter: what it has yet to pop is already taken. */
  function Abstract<T>(b: Box<T>): Atomic<T> {
    if b.section.ToPop? then Atomic([], b.drained + b.queue) else Atomic(b.queue, b.drained)
  }

  function EffectOf<T>(b: Box<T>, a: Action<T>): Effect<T>
    requires Enabled(b, a)
  {
    match a
    case Push => Post(b.section.item)
    case ReadCounter => TakeAll
    case _ => Stutter
  }

  lemma StepRefines<T>(b: Box<T>, a: Action<T>)
    requires Inv(b) && Enabled(b, a)
    ensures Abstract(Step(b, a)) == Apply(Abstract(b), EffectOf(b, a))
  {
  }

  function Effects<T>(b: Box<T>, acts: seq<Action<T>>): (es: seq<Effect<T>>)
    requires Runs(b, acts)
    decreases |acts|
  {
    if acts == [] then [] else [EffectOf(b, acts[0])] + Effects(Step(b, acts[0]), acts[1..])
  }

  function ApplyAll<T>(s: Atomic<T>, es: seq<Effect<T>>): Atomic<T>
    decreases |es|
  {
    if es == [] then s else ApplyAll(Apply(s, es[0]), es[1..])
  }

  lemma {:induction false} RunRefines<T>(b: Box<T>, acts: seq<Action<T>>)
    requires Inv(b) && Runs(b, acts)
    ensures Inv(Exec(b, acts))
    ensures Abstract(Exec(b, acts)) == ApplyAll(Abstract(b), Effects(b, acts))
    decreases |acts|
  {
    if acts == [] {
    } else {
      StepKeepsInv(b, acts[0]);
      StepRefines(b, acts[0]);
      RunRefines(Step(b, acts[0]), acts[1..]);
      assert Effects(b, acts)[1..] == Effects(Step(b, acts[0]), acts[1..]);
    }
  }

  /**
   * Under every interleaving: no drain meets an empty queue, the items drained and then those still
   * queued are exactly the items enqueued, in order and once each, the counter is the queue length
   * whenever the lock is free, and the run is a run of the atomic mailbox.
   */
  lemma MailboxSafety<T>(acts: seq<Action<T>>)
    requires Runs(Initial(), acts)
    ensures var b := Exec(Initial(), acts);
            && !b.fault
            && b.drained + b.queue == b.enqueued
            && (b.section.Free? ==> b.counter == |b.queue|)
            && Abstract(b) == ApplyAll(Atomic([], []), Effects(Initial(), acts))
  {
    RunRefines(Initial(), acts);
  }

  /** Neither side gets stuck: with the lock free an enqueue can run to its end. */
  lemma EnqueueCompletes<T>(b: Box<T>, item: T)
    requires b.section.Free?
    ensures var acts := [Acquire(item), Push, Signal, Release];
            Runs(b, acts) && Exec(b, acts) == b.(queue := b.queue + [item], counter := b.counter + 1, enqueued := b.enqueued + [item])
  {
    var b1 := Step(b, Acquire(item));
    var b2 := Step(b1, Push);
    var b3 := Step(b2, Signal);
    var b4 := Step(b3, Release);
    var last: seq<Action<T>> := [Release];
    var two: seq<Action<T>> := [Signal] + last;
    var three: seq<Action<T>> := [Push] + two;
    assert last[1..] == [] && Runs(b3, last) && Exec(b3, last) == b4;
    assert two[1..] == last && Runs(b2, two) && Exec(b2, two) == b4;
    assert three[1..] == two && Runs(b1, three) && Exec(b1, three) == b4;
    assert [Acquire(item), Push, Signal, Release] == [Acquire(item)] + three;
    assert ([Acquire(item)] + three)[1..] == three;
  }

  /** And a drain of a mailbox that is not empty pops every item and releases the lock. */
  lemma {:induction false} DrainCompletes<T>(b: Box<T>)
    requires Inv(b) && b.section.Free? && b.queue != []
    ensures var acts := [AcquireDrain, ReadCounter] + seq(|b.queue|, _ => Pop) + [ReleaseDrain];
            Runs(b, acts) && Exec(b, acts) == b.(queue := [], counter := 0, drained := b.drained + b.queue)
  {
    var b1 := Step(b, AcquireDrain);
    var b2 := Step(b1, ReadCounter);
    PopsComplete(b2);
    var pops: seq<Action<T>> := seq(|b.queue|, _ => Pop) + [ReleaseDrain];
    var acts: seq<Action<T>> := [AcquireDrain, ReadCounter] + seq(|b.queue|, _ => Pop) + [ReleaseDrain];
    assert acts[1..][1..] == pops && acts[1..][0] == ReadCounter && acts[0] == AcquireDrain;
    assert Runs(b1, acts[1..]) && Exec(b1, acts[1..]) == Exec(b2, pops);
  }

  lemma {:induction false} PopsComplete<T>(b: Box<T>)
    requires Inv(b) && b.section.ToPop?
    ensures var acts := seq(|b.queue|, _ => Pop) + [ReleaseDrain];
            Runs(b, acts) && Exec(b, acts) == b.(queue := [], drained := b.drained + b.queue, section := Free)
    decreases |b.queue|
  {
    var acts: seq<Action<T>> := seq(|b.queue|, _ => Pop) + [ReleaseDrain];
    if b.queue == [] {
      assert acts == [ReleaseDrain] && acts[1..] == [];
    } else {
      var b1 := Step(b, Pop);
      PopsComplete(b1);
      assert acts[0] == Pop && acts[1..] == seq(|b1.queue|, _ => Pop) + [ReleaseDrain];
      assert b1.drained + b1.queue == b.drained + b.queue;
    }
  }

  /** The mailbox as the callbacks use it; each method is one critical section. */
  class Mailbox<T> {
    var queue: seq<T>
    var counter: nat

    ghost predicate Valid()
      reads this
    {
      counter == |queue|
    }

    constructor ()
      ensures Valid() && queue == []
    {
      queue, counter := [], 0;
    }

    method Enqueue(item: T)
      requires Valid()
      modifies this
      ensures Valid() && queue == old(queue) + [item]
    {
      queue := queue + [item];
      counter := counter + 1;
    }

    /** The drain of database.cpp: the counter bounds the loop that moves the items to a vector. */
    method Drain() returns (items: seq<T>)
      requires Valid()
      modifies this
      ensures Valid() && queue == [] && items == old(queue)
    {
      var v := counter;
      counter := 0;
      items := [];
      for count := 0 to v
        invariant counter == 0 && |queue| == v - count
        invariant items + queue == old(queue)
      {
        assert items + [queue[0]] + queue[1..] == items + queue;
        items := items + [queue[0]];
        queue := queue[1..];
      }
    }
  }
}
