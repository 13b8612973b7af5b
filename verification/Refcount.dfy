/**
 Reference counts without a lock: any number of threads increment and decrement a shared 32-bit count in
 compare-exchange loops. Every interleaving behaves as if each operation had run at once under the lock.
 */
module Refcount {
  import opened Wrappers

  /** At this value the count stays for ever. */
  const COUNT_MAX := 0xffff_ffff

  // ----- The locked operations -----

  datatype Op = Inc | Dec

  /** What an operation did: decrements report whether the count became zero, and abort if it was zero. */
  datatype Outcome = Done | NowZero(zero: bool) | Abort

  function LockedCount(count: nat, op: Op): nat {
    match op
    case Inc => if count < COUNT_MAX then count + 1 else count
    case Dec => if 0 < count < COUNT_MAX then count - 1 else count
  }

  function LockedOutcome(count: nat, op: Op): Outcome {
    match op
    case Inc => Done
    case Dec => if count == 0 then Abort else NowZero(LockedCount(count, Dec) == 0)
  }

  /** The shared count under a lock. */
  class LockedCounter {
    var count: nat

    constructor ()
      ensures count == 1
    {
      count := 1;
    }

    method Increment()
      modifies this
      ensures count == LockedCount(old(count), Inc)
    {
      if count < COUNT_MAX {
        count := count + 1;
      }
    }

    method DecAndTestZero() returns (outcome: Outcome)
      modifies this
      ensures count == LockedCount(old(count), Dec) && outcome == LockedOutcome(old(count), Dec)
    {
      if count == 0 {
        return Abort;
      }
      if count < COUNT_MAX {
        count := count - 1;
      }
      return NowZero(count == 0);
    }
  }

  // ----- The compare-exchange loops, step by step -----

  /** Where a thread stands: between operations, in the loop with the value it last saw, or aborted. */
  datatype Thread =
    | Idle
    | Looping(op: Op, expected: nat)
    | Aborted

  /** The shared count and all threads; `finished` lists what each thread's operations returned, in order. */
  datatype World = World(count: nat, threads: seq<Thread>, finished: seq<seq<(Op, Outcome)>>) {
    predicate Valid() {
      |finished| == |threads| && count <= COUNT_MAX
    }

    function At(t: nat, thread: Thread): World
      requires t < |threads|
    {
      this.(threads := threads[t := thread])
    }

    /** The operation of thread `t` returns. */
    function Return(t: nat, op: Op, outcome: Outcome): World
      requires Valid() && t < |threads|
    {
      this.(threads := threads[t := if outcome == Abort then Aborted else Idle],
            finished := finished[t := finished[t] + [(op, outcome)]])
    }
  }

  /**
   One atomic step of thread `t`: the load at the start of an operation, or one round of its loop. A weak
   compare-exchange may fail for no reason.
   */
  datatype Step = Start(t: nat, op: Op) | Round(t: nat, spurious: bool)

  predicate Enabled(w: World, s: Step) {
    && w.Valid() && s.t < |w.threads|
    && match s
       case Start(t, _) => w.threads[t] == Idle
       case Round(t, _) => w.threads[t].Looping?
  }

  /** Whether the loop ends without an exchange when it sees this value. */
  predicate Settles(op: Op, seen: nat) {
    seen == COUNT_MAX || (op == Dec && seen == 0)
  }

  /** The world after one round of the loop. */
  function After(w: World, s: Step): (r: World)
    requires Enabled(w, s)
    ensures |r.threads| == |w.threads|
  {
    match s
    case Start(t, op) => w.At(t, Looping(op, w.count))
    case Round(t, spurious) =>
      var Looping(op, expected) := w.threads[t];
      if Settles(op, expected) then w.Return(t, op, LockedOutcome(expected, op))
      else if w.count == expected && !spurious then
        w.(count := LockedCount(expected, op)).Return(t, op, LockedOutcome(expected, op))
      else w.At(t, Looping(op, w.count))
  }

  // ----- Where each operation takes effect -----

  /** An operation of thread `t` that takes effect at once. */
  datatype Event = Event(t: nat, op: Op, outcome: Outcome)

  /**
   The effect of a step: an operation takes effect where its exchange succeeds, or where it first sees a value
   that settles it.
   */
  function Effect(w: World, s: Step): Option<Event>
    requires Enabled(w, s)
  {
    match s
    case Start(t, op) => if Settles(op, w.count) then Some(Event(t, op, LockedOutcome(w.count, op))) else None
    case Round(t, spurious) =>
      var Looping(op, expected) := w.threads[t];
      if Settles(op, expected) then None
      else if (w.count == expected && !spurious) || Settles(op, w.count) then
        Some(Event(t, op, LockedOutcome(w.count, op)))
      else None
  }

  predicate RunEnabled(w: World, run: seq<Step>)
    decreases |run|
  {
    run == [] || (Enabled(w, run[0]) && RunEnabled(After(w, run[0]), run[1..]))
  }

  function RunAfter(w: World, run: seq<Step>): World
    requires RunEnabled(w, run)
    decreases |run|
  {
    if run == [] then w else RunAfter(After(w, run[0]), run[1..])
  }

  function Effects(w: World, run: seq<Step>): seq<Event>
    requires RunEnabled(w, run)
    decreases |run|
  {
    if run == [] then []
    else (match Effect(w, run[0]) case None => [] case Some(e) => [e]) + Effects(After(w, run[0]), run[1..])
  }

  // ----- The same operations under the lock -----

  function LockedRun(count: nat, events: seq<Event>): nat
    decreases |events|
  {
    if events == [] then count else LockedRun(LockedCount(count, events[0].op), events[1..])
  }

  /** Every operation returned what it returns under the lock. */
  predicate LockedAgrees(count: nat, events: seq<Event>)
    decreases |events|
  {
    events == []
    || (events[0].outcome == LockedOutcome(count, events[0].op)
        && LockedAgrees(LockedCount(count, events[0].op), events[1..]))
  }

  /** The value of the count when an operation takes effect is the one it acts on. */
  lemma EffectIsLocked(w: World, s: Step)
    requires Enabled(w, s)
    ensures match Effect(w, s)
      case None => After(w, s).count == w.count
      case Some(e) => e.outcome == LockedOutcome(w.count, e.op) && After(w, s).count == LockedCount(w.count, e.op)
  {
  }

  /**
   Refinement: in every interleaving of any number of threads, the operations, in the order in which they take
   effect, do to the count what they do one after the other under the lock, and return the same.
   */
  lemma {:induction false} EveryRunIsLocked(w: World, run: seq<Step>)
    requires RunEnabled(w, run)
    ensures LockedRun(w.count, Effects(w, run)) == RunAfter(w, run).count
    ensures LockedAgrees(w.count, Effects(w, run))
    decreases |run|
  {
    if run != [] {
      EffectIsLocked(w, run[0]);
      EveryRunIsLocked(After(w, run[0]), run[1..]);
      var rest := Effects(After(w, run[0]), run[1..]);
      if Effect(w, run[0]).Some? {
        assert ([Effect(w, run[0]).value] + rest)[1..] == rest;
      } else {
        assert [] + rest == rest;
      }
    }
  }

  // ----- What each thread is told -----

  /** The effects of one thread's operations, in order. */
  function Of(events: seq<Event>, t: nat): seq<(Op, Outcome)> {
    if events == [] then []
    else (if events[0].t == t then [(events[0].op, events[0].outcome)] else []) + Of(events[1..], t)
  }

  /** An operation that has taken effect but not returned yet. */
  function Pending(thread: Thread): seq<(Op, Outcome)> {
    if thread.Looping? && Settles(thread.op, thread.expected) then
      [(thread.op, LockedOutcome(thread.expected, thread.op))]
    else []
  }

  /** What a thread has been told, or is about to be told. */
  function Told(w: World, t: nat): seq<(Op, Outcome)>
    requires w.Valid() && t < |w.threads|
  {
    w.finished[t] + Pending(w.threads[t])
  }

  lemma StepTells(w: World, s: Step, t: nat)
    requires Enabled(w, s) && t < |w.threads|
    ensures After(w, s).Valid()
    ensures Told(After(w, s), t) ==
      Told(w, t) + match Effect(w, s) case None => [] case Some(e) => if e.t == t then [(e.op, e.outcome)] else []
  {
  }

  /** Each operation returns exactly what its effect was, in the order of the effects, and nothing is lost. */
  lemma {:induction false} ThreadsAreToldEffects(w: World, run: seq<Step>, t: nat)
    requires w.Valid() && RunEnabled(w, run) && t < |w.threads|
    ensures RunAfter(w, run).Valid() && t < |RunAfter(w, run).threads|
    ensures Told(RunAfter(w, run), t) == Told(w, t) + Of(Effects(w, run), t)
    decreases |run|
  {
    hide Enabled, After, Effect, Told;
    if run == [] {
      assert Told(w, t) + [] == Told(w, t);
    } else {
      var next := After(w, run[0]);
      StepTells(w, run[0], t);
      ThreadsAreToldEffects(next, run[1..], t);
      var rest := Effects(next, run[1..]);
      match Effect(w, run[0])
      case None =>
        assert [] + rest == rest;
        assert Told(w, t) + [] == Told(w, t);
      case Some(e) =>
        assert ([e] + rest)[1..] == rest;
        var told: seq<(Op, Outcome)> := if e.t == t then [(e.op, e.outcome)] else [];
        assert Told(w, t) + told + Of(rest, t) == Told(w, t) + (told + Of(rest, t));
    }
  }

  // ----- Counting -----

  function Count(events: seq<Event>, op: Op): nat {
    if events == [] then 0 else (if events[0].op == op then 1 else 0) + Count(events[1..], op)
  }

  /** No operation finds the count saturated, and no decrement finds it at zero. */
  predicate InBounds(count: nat, events: seq<Event>)
    decreases |events|
  {
    count < COUNT_MAX
    && (events == [] ||
      ((events[0].op == Dec ==> count > 0) && InBounds(LockedCount(count, events[0].op), events[1..])))
  }

  /** Below saturation the count is what it was, plus the increments, minus the decrements. */
  lemma {:induction false} CountIsBalance(count: nat, events: seq<Event>)
    requires InBounds(count, events)
    ensures LockedRun(count, events) == count + Count(events, Inc) - Count(events, Dec)
    decreases |events|
  {
    if events != [] {
      CountIsBalance(LockedCount(count, events[0].op), events[1..]);
    }
  }

  /** A saturated count never changes again, and no decrement reports zero. */
  lemma {:induction false} SaturatedStays(events: seq<Event>)
    requires LockedAgrees(COUNT_MAX, events)
    ensures LockedRun(COUNT_MAX, events) == COUNT_MAX
    ensures forall e | e in events :: e.outcome == if e.op == Inc then Done else NowZero(false)
    decreases |events|
  {
    if events != [] {
      SaturatedStays(events[1..]);
      assert events == [events[0]] + events[1..];
    }
  }

  /** Every operation is performed by someone who holds a reference, so there is one. */
  predicate ByOwners(count: nat, events: seq<Event>)
    decreases |events|
  {
    events == [] || (count > 0 && ByOwners(LockedCount(count, events[0].op), events[1..]))
  }

  function Zeros(events: seq<Event>): nat {
    if events == [] then 0 else (if events[0].outcome == NowZero(true) then 1 else 0) + Zeros(events[1..])
  }

  /**
   Among legitimate owners exactly one decrement reports zero if the count comes down to zero, and it is the last
   operation of all; otherwise none does.
   */
  lemma {:induction false} OneOwnerSeesZero(count: nat, events: seq<Event>)
    requires 0 < count && InBounds(count, events) && ByOwners(count, events) && LockedAgrees(count, events)
    ensures Zeros(events) == if LockedRun(count, events) == 0 then 1 else 0
    ensures forall k | 0 <= k < |events| && events[k].outcome == NowZero(true) :: k == |events| - 1
    decreases |events|
  {
    if events != [] {
      var next := LockedCount(count, events[0].op);
      if next == 0 {
        assert events[1..] == [];
      } else {
        OneOwnerSeesZero(next, events[1..]);
        forall k | 0 <= k < |events| && events[k].outcome == NowZero(true)
          ensures k == |events| - 1
        {
          if k > 0 {
            assert events[1..][k - 1] == events[k];
          }
        }
      }
    }
  }

  /** The theorem for threads: the conclusions above hold of the compare-exchange loops in every interleaving. */
  lemma InterleavedOwners(w: World, run: seq<Step>)
    requires RunEnabled(w, run) && 0 < w.count
    requires InBounds(w.count, Effects(w, run)) && ByOwners(w.count, Effects(w, run))
    ensures RunAfter(w, run).count == w.count + Count(Effects(w, run), Inc) - Count(Effects(w, run), Dec)
    ensures Zeros(Effects(w, run)) == if RunAfter(w, run).count == 0 then 1 else 0
  {
    EveryRunIsLocked(w, run);
    CountIsBalance(w.count, Effects(w, run));
    OneOwnerSeesZero(w.count, Effects(w, run));
  }
}
