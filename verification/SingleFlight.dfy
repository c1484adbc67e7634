/** Threads that call get_or_else with one key: the first look-up, the lock table, the lock of the key, the second
    look-up, the producer, the removal of the lock. Every critical section under the table lock is one step; so is
    every look-up in the cache. Lock objects are numbered in the order of their creation. */
module SingleFlight {
  import opened CacheHeap
  import opened Wrappers

  datatype Thread =
    | Calling
    | Missed  // the first look-up raised KeyError
    | Waiting(lock: nat)
    | Holding(lock: nat)  // about to look up again
    | Producing(lock: nat)
    | Leaving(lock: nat, value: Value)  // still holds the lock
    | Removing(value: Value)  // about to remove the lock from the table
    | Hit(value: Value)  // returned what the first look-up found
    | Returned(value: Value)  // returned after a miss
    | LockGone  // KeyError: the lock was no longer in the table
    | ProducerRaised
    | AddedTwice  // "Added same item twice"

  datatype State = State(
    threads: seq<Thread>,
    table: Option<nat>,  // the lock in the table for the key
    cached: Option<Value>,
    created: nat,  // locks created so far
    completed: nat,  // producer calls that returned
    dropped: nat)  // times that a value was not cached, or left the cache

  datatype Step =
    | Find(t: nat) | LookUpLock(t: nat) | Acquire(t: nat) | FindAgain(t: nat)
    | Complete(t: nat, result: Value) | Raise(t: nat) | Release(t: nat) | Remove(t: nat)
    | Evict

  predicate HasLock(th: Thread) {
    th.Waiting? || th.Holding? || th.Producing? || th.Leaving?
  }

  predicate Holds(th: Thread) {
    HasLock(th) && !th.Waiting?
  }

  predicate Free(threads: seq<Thread>, lock: nat) {
    forall t :: 0 <= t < |threads| && Holds(threads[t]) ==> threads[t].lock != lock
  }

  predicate Enabled(s: State, step: Step) {
    if step.Evict? then s.cached.Some? else
    step.t < |s.threads| &&
    var th := s.threads[step.t];
    match step
    case Find(_) => th.Calling?
    case LookUpLock(_) => th.Missed?
    case Acquire(_) => th.Waiting? && Free(s.threads, th.lock)
    case FindAgain(_) => th.Holding?
    case Complete(_, _) => th.Producing?
    case Raise(_) => th.Producing?
    case Release(_) => th.Leaving?
    case Remove(_) => th.Removing?
    case Evict => false
  }

  function Moved(s: State, t: nat, th: Thread): (s': State)
    requires t < |s.threads|
  {
    s.(threads := s.threads[t := th])
  }

  function Apply(s: State, step: Step, cacheNone: bool): State
    requires Enabled(s, step)
  {
    if step.Evict? then s.(cached := None, dropped := s.dropped + 1) else
    var t, th := step.t, s.threads[step.t];
    match step
    case Find(_) => Moved(s, t, if s.cached.Some? then Hit(s.cached.value) else Missed)
    case LookUpLock(_) =>
      if s.table.Some? then Moved(s, t, Waiting(s.table.value))
      else Moved(s, t, Waiting(s.created)).(table := Some(s.created), created := s.created + 1)
    case Acquire(_) => Moved(s, t, Holding(th.lock))
    case FindAgain(_) => Moved(s, t, if s.cached.Some? then Leaving(th.lock, s.cached.value) else Producing(th.lock))
    case Complete(_, result) =>
      var s' := s.(completed := s.completed + 1);
      if !cacheNone && result == PythonNone then Moved(s', t, Leaving(th.lock, result)).(dropped := s.dropped + 1)
      else if s.cached.Some? then Moved(s', t, AddedTwice)
      else Moved(s', t, Leaving(th.lock, result)).(cached := Some(result))
    case Raise(_) => Moved(s, t, ProducerRaised)
    case Release(_) => Moved(s, t, Removing(th.value))
    case Remove(_) => if s.table.Some? then Moved(s, t, Returned(th.value)).(table := None) else Moved(s, t, LockGone)
  }

  ghost predicate Takes(s: State, step: Step, cacheNone: bool, s': State) {
    Enabled(s, step) && s' == Apply(s, step, cacheNone)
  }

  predicate Initial(s: State) {
    && (forall t :: 0 <= t < |s.threads| ==> s.threads[t].Calling?)
    && s.table == None && s.cached == None && s.created == 0 && s.completed == 0 && s.dropped == 0
  }

  ghost predicate IsRun(states: seq<State>, steps: seq<Step>, cacheNone: bool) {
    && |states| == |steps| + 1 && Initial(states[0])
    && forall i :: 0 <= i < |steps| ==> Takes(states[i], steps[i], cacheNone, states[i + 1])
  }

  // ---------------------------------------------------------------- mutual exclusion, always

  ghost predicate Exclusive(threads: seq<Thread>) {
    forall t, u :: 0 <= t < u < |threads| && Holds(threads[t]) && Holds(threads[u]) ==>
      threads[t].lock != threads[u].lock
  }

  /** Locks exist before they are used, and one thread at a time holds each. */
  ghost predicate LocksOk(s: State) {
    && (s.table.Some? ==> s.table.value < s.created)
    && (forall t :: 0 <= t < |s.threads| && HasLock(s.threads[t]) ==> s.threads[t].lock < s.created)
    && Exclusive(s.threads)
  }

  function Returns(threads: seq<Thread>): (n: nat)
    ensures n <= |threads|
  {
    if threads == [] then 0 else Returns(threads[1..]) + if threads[0].Returned? then 1 else 0
  }

  lemma {:induction false} ReturnsAfter(threads: seq<Thread>, t: nat, th: Thread)
    requires t < |threads| && !threads[t].Returned?
    ensures Returns(threads[t := th]) == Returns(threads) + if th.Returned? then 1 else 0
  {
    if t > 0 {
      ReturnsAfter(threads[1..], t - 1, th);
      assert threads[t := th][1..] == threads[1..][t - 1 := th];
    } else {
      assert threads[t := th][1..] == threads[1..];
    }
  }

  lemma {:induction false} NoReturns(threads: seq<Thread>)
    requires forall t :: 0 <= t < |threads| ==> threads[t].Calling?
    ensures Returns(threads) == 0
  {
    if threads != [] { NoReturns(threads[1..]); }
  }

  /** Every lock that was created is in the table or let one thread return. */
  ghost predicate LocksCounted(s: State) {
    s.created == Returns(s.threads) + if s.table.Some? then 1 else 0
  }

  // ---------------------------------------------------------------- while nothing was dropped

  predicate HasValue(th: Thread) {
    th.Leaving? || th.Removing? || th.Hit? || th.Returned?
  }

  /** Before the value is cached nobody has it and there is one lock, which stays in the table. */
  ghost predicate NothingYet(s: State) {
    && s.completed == 0 && s.created <= 1 && (s.created == 1 ==> s.table == Some(0))
    && forall t :: 0 <= t < |s.threads| ==>
         !HasValue(s.threads[t]) && !s.threads[t].LockGone? && !s.threads[t].AddedTwice?
  }

  /** Once it is cached nobody produces, and everybody who has a value has this one. */
  ghost predicate OneValue(s: State, value: Value) {
    && s.completed == 1
    && forall t :: 0 <= t < |s.threads| ==>
         && !s.threads[t].Producing? && !s.threads[t].AddedTwice?
         && (HasValue(s.threads[t]) ==> s.threads[t].value == value)
  }

  ghost predicate ValueOk(s: State) {
    s.dropped == 0 ==> match s.cached case None => NothingYet(s) case Some(value) => OneValue(s, value)
  }

  ghost predicate Inv(s: State) {
    LocksOk(s) && LocksCounted(s) && ValueOk(s)
  }

  lemma {:induction false} StaysExclusive(threads: seq<Thread>, t: nat, th: Thread)
    requires t < |threads| && Exclusive(threads)
    requires Holds(th) ==> (Holds(threads[t]) && threads[t].lock == th.lock) || Free(threads, th.lock)
    ensures Exclusive(threads[t := th])
  {
  }

  lemma {:induction false} StepKeepsLocks(s: State, step: Step, cacheNone: bool, s': State)
    requires Inv(s) && Takes(s, step, cacheNone, s')
    ensures LocksOk(s')
  {
    if !step.Evict? {
      StaysExclusive(s.threads, step.t, s'.threads[step.t]);
    }
  }

  lemma {:induction false} StepKeepsCount(s: State, step: Step, cacheNone: bool, s': State)
    requires Inv(s) && Takes(s, step, cacheNone, s')
    ensures LocksCounted(s')
  {
    if !step.Evict? { ReturnsAfter(s.threads, step.t, s'.threads[step.t]); }
  }

  lemma {:induction false} ProducesAlone(s: State, t: nat)
    requires LocksOk(s) && s.created <= 1 && t < |s.threads| && s.threads[t].Producing?
    ensures forall u :: 0 <= u < |s.threads| && s.threads[u].Producing? ==> u == t
  {
    forall u | 0 <= u < |s.threads| && s.threads[u].Producing? ensures u == t {
      assert Holds(s.threads[t]) && Holds(s.threads[u]);
    }
  }

  lemma {:induction false} StepKeepsValue(s: State, step: Step, cacheNone: bool, s': State)
    requires Inv(s) && Takes(s, step, cacheNone, s')
    ensures ValueOk(s')
  {
    if s.dropped == 0 && s.cached.None? && step.Complete? {
      ProducesAlone(s, step.t);
    }
  }

  lemma {:induction false} RunInv(states: seq<State>, steps: seq<Step>, cacheNone: bool, i: nat)
    requires IsRun(states, steps, cacheNone) && i < |states|
    ensures Inv(states[i])
  {
    if i == 0 {
      NoReturns(states[0].threads);
    } else {
      RunInv(states, steps, cacheNone, i - 1);
      assert Takes(states[i - 1], steps[i - 1], cacheNone, states[i - 1 + 1]);
      StepKeepsLocks(states[i - 1], steps[i - 1], cacheNone, states[i]);
      StepKeepsCount(states[i - 1], steps[i - 1], cacheNone, states[i]);
      StepKeepsValue(states[i - 1], steps[i - 1], cacheNone, states[i]);
    }
  }

  // ---------------------------------------------------------------- what holds in every run

  /** With cache_none on, or a producer that never returns None, only eviction drops a value. */
  lemma {:induction false} NothingDropped(states: seq<State>, steps: seq<Step>, cacheNone: bool, i: nat)
    requires IsRun(states, steps, cacheNone) && i < |states|
    requires forall n :: 0 <= n < i ==>
              !steps[n].Evict? && (cacheNone || (steps[n].Complete? ==> steps[n].result != PythonNone))
    ensures states[i].dropped == 0
  {
    if i > 0 {
      NothingDropped(states, steps, cacheNone, i - 1);
      assert Takes(states[i - 1], steps[i - 1], cacheNone, states[i - 1 + 1]);
    }
  }

  /** As long as nothing was dropped the producer has completed at most once, and the cache holds its value. */
  lemma {:induction false} ProducedOnce(states: seq<State>, steps: seq<Step>, cacheNone: bool, i: nat)
    requires IsRun(states, steps, cacheNone) && i < |states| && states[i].dropped == 0
    ensures states[i].completed == if states[i].cached.Some? then 1 else 0
    ensures forall t :: 0 <= t < |states[i].threads| ==>
              && !states[i].threads[t].AddedTwice?
              && (HasValue(states[i].threads[t]) ==> states[i].cached == Some(states[i].threads[t].value))
  {
    RunInv(states, steps, cacheNone, i);
  }

  /** As long as nothing was dropped, one thread at a time is in the producer. */
  lemma {:induction false} ProducersDoNotOverlap(states: seq<State>, steps: seq<Step>, cacheNone: bool, i: nat,
        t: nat, u: nat)
    requires IsRun(states, steps, cacheNone) && i < |states| && states[i].dropped == 0
    requires t < |states[i].threads| && u < |states[i].threads|
    requires states[i].threads[t].Producing? && states[i].threads[u].Producing?
    ensures t == u
  {
    RunInv(states, steps, cacheNone, i);
    assert Holds(states[i].threads[t]) && Holds(states[i].threads[u]);
  }

  /** Of the threads that missed, as many return as locks were created, but for the one still in the table;
      the others fail with KeyError when they remove the lock. */
  lemma {:induction false} OneReturnPerLock(states: seq<State>, steps: seq<Step>, cacheNone: bool, i: nat)
    requires IsRun(states, steps, cacheNone) && i < |states|
    ensures states[i].created == Returns(states[i].threads) + if states[i].table.Some? then 1 else 0
    ensures i < |steps| && steps[i].Remove? && steps[i].t < |states[i].threads| && i + 1 < |states| ==>
              var t := steps[i].t;
              if states[i].created == Returns(states[i].threads) then states[i + 1].threads[t] == LockGone
              else states[i].threads[t].Removing? && states[i + 1].threads[t] == Returned(states[i].threads[t].value)
  {
    RunInv(states, steps, cacheNone, i);
    if i < |steps| { assert Takes(states[i], steps[i], cacheNone, states[i + 1]); }
  }

  ghost predicate NoEviction(steps: seq<Step>) {
    forall n :: 0 <= n < |steps| ==> !steps[n].Evict?
  }

  lemma {:induction false} Then(was: seq<State>, did: seq<Step>, cacheNone: bool, step: Step)
    returns (states: seq<State>, steps: seq<Step>)
    requires IsRun(was, did, cacheNone) && Enabled(was[|did|], step)
    ensures IsRun(states, steps, cacheNone) && |steps| == |did| + 1 && |states| == |did| + 2
    ensures states[|steps|] == Apply(was[|did|], step, cacheNone)
    ensures NoEviction(did) && !step.Evict? ==> NoEviction(steps)
  {
    states, steps := was + [Apply(was[|did|], step, cacheNone)], did + [step];
  }

  lemma {:induction false} TwoMissers(cacheNone: bool)
    returns (states: seq<State>, steps: seq<Step>)
    ensures IsRun(states, steps, cacheNone) && NoEviction(steps)
    ensures states[|steps|] == State([Producing(0), Waiting(0)], Some(0), None, 1, 0, 0)
  {
    states, steps := [State([Calling, Calling], None, None, 0, 0, 0)], [];
    assert IsRun(states, steps, cacheNone) && NoEviction(steps);
    hide IsRun, NoEviction;
    states, steps := Then(states, steps, cacheNone, Find(0));
    states, steps := Then(states, steps, cacheNone, Find(1));
    states, steps := Then(states, steps, cacheNone, LookUpLock(0));
    states, steps := Then(states, steps, cacheNone, LookUpLock(1));
    states, steps := Then(states, steps, cacheNone, Acquire(0));
    states, steps := Then(states, steps, cacheNone, FindAgain(0));
  }

  /** Two threads miss at once: both get the value, but the second one finds the lock gone. */
  lemma {:induction false} SecondMisserFails(value: Value, cacheNone: bool)
    returns (states: seq<State>, steps: seq<Step>)
    requires value != PythonNone || cacheNone
    ensures IsRun(states, steps, cacheNone) && NoEviction(steps) && states[|steps|].dropped == 0
    ensures states[|steps|].threads == [Returned(value), LockGone]
  {
    states, steps := TwoMissers(cacheNone);
    hide IsRun, NoEviction;
    states, steps := Then(states, steps, cacheNone, Complete(0, value));
    states, steps := Then(states, steps, cacheNone, Release(0));
    states, steps := Then(states, steps, cacheNone, Acquire(1));
    assert states[|steps|] == State([Removing(value), Holding(0)], Some(0), Some(value), 1, 1, 0);
    states, steps := Then(states, steps, cacheNone, FindAgain(1));
    states, steps := Then(states, steps, cacheNone, Release(1));
    states, steps := Then(states, steps, cacheNone, Remove(0));
    states, steps := Then(states, steps, cacheNone, Remove(1));
  }

  /** Three threads that miss, of which the first is in the producer and the second waits for its lock. */
  lemma {:induction false} ThreeMissers(cacheNone: bool) returns (states: seq<State>, steps: seq<Step>)
    ensures IsRun(states, steps, cacheNone) && NoEviction(steps)
    ensures states[|steps|] == State([Producing(0), Waiting(0), Missed], Some(0), None, 1, 0, 0)
  {
    states, steps := [State([Calling, Calling, Calling], None, None, 0, 0, 0)], [];
    assert IsRun(states, steps, cacheNone) && NoEviction(steps);
    hide IsRun, NoEviction;
    states, steps := Then(states, steps, cacheNone, Find(0));
    states, steps := Then(states, steps, cacheNone, Find(1));
    states, steps := Then(states, steps, cacheNone, Find(2));
    states, steps := Then(states, steps, cacheNone, LookUpLock(0));
    states, steps := Then(states, steps, cacheNone, LookUpLock(1));
    assert states[|steps|] == State([Waiting(0), Waiting(0), Missed], Some(0), None, 1, 0, 0);
    states, steps := Then(states, steps, cacheNone, Acquire(0));
    states, steps := Then(states, steps, cacheNone, FindAgain(0));
  }

  /** Once the first thread has taken the lock out of the table while nothing is cached, the third thread makes a second
      lock, and two producers overlap. */
  lemma {:induction false} LockRemovedTooEarly(was: seq<State>, did: seq<Step>, cacheNone: bool, value: Value)
    returns (states: seq<State>, steps: seq<Step>)
    requires IsRun(was, did, cacheNone)
    requires was[|did|] == State([Returned(value), Waiting(0), Missed], None, None, 1, 1, 1)
    ensures IsRun(states, steps, cacheNone) && (NoEviction(did) ==> NoEviction(steps))
    ensures states[|steps|] == State([Returned(value), Producing(0), Producing(1)], Some(1), None, 2, 1, 1)
  {
    hide IsRun, NoEviction;
    states, steps := Then(was, did, cacheNone, LookUpLock(2));
    states, steps := Then(states, steps, cacheNone, Acquire(1));
    states, steps := Then(states, steps, cacheNone, FindAgain(1));
    states, steps := Then(states, steps, cacheNone, Acquire(2));
    states, steps := Then(states, steps, cacheNone, FindAgain(2));
  }

  /** With cache_none off it is enough that the first producer returns None. */
  lemma {:induction false} DroppedValueBreaksExclusion() returns (states: seq<State>, steps: seq<Step>)
    ensures IsRun(states, steps, false) && NoEviction(steps)
    ensures states[|steps|] == State([Returned(PythonNone), Producing(0), Producing(1)], Some(1), None, 2, 1, 1)
  {
    states, steps := ThreeMissers(false);
    hide IsRun, NoEviction;
    states, steps := Then(states, steps, false, Complete(0, PythonNone));
    states, steps := Then(states, steps, false, Release(0));
    states, steps := Then(states, steps, false, Remove(0));
    states, steps := LockRemovedTooEarly(states, steps, false, PythonNone);
  }

  /** With cache_none on it is enough that the value is evicted before the first thread returns. */
  lemma {:induction false} EvictionBreaksExclusion(value: Value) returns (states: seq<State>, steps: seq<Step>)
    ensures IsRun(states, steps, true)
    ensures states[|steps|] == State([Returned(value), Producing(0), Producing(1)], Some(1), None, 2, 1, 1)
  {
    states, steps := ThreeMissers(true);
    hide IsRun, NoEviction;
    states, steps := Then(states, steps, true, Complete(0, value));
    states, steps := Then(states, steps, true, Evict);
    states, steps := Then(states, steps, true, Release(0));
    states, steps := Then(states, steps, true, Remove(0));
    states, steps := LockRemovedTooEarly(states, steps, true, value);
  }

  /** The second of two overlapping producers to finish fails with "Added same item twice". */
  lemma {:induction false} SecondAddFails(was: seq<State>, did: seq<Step>, cacheNone: bool, value: Value)
    returns (states: seq<State>, steps: seq<Step>)
    requires IsRun(was, did, cacheNone) && value != PythonNone
    requires |was[|did|].threads| == 3 && was[|did|].cached.None?
    requires was[|did|].threads[1] == Producing(0) && was[|did|].threads[2] == Producing(1)
    ensures IsRun(states, steps, cacheNone) && (NoEviction(did) ==> NoEviction(steps))
    ensures states[|steps|].threads == [was[|did|].threads[0], Leaving(0, value), AddedTwice]
  {
    hide IsRun, NoEviction;
    states, steps := Then(was, did, cacheNone, Complete(1, value));
    states, steps := Then(states, steps, cacheNone, Complete(2, value));
  }

  lemma {:induction false} DroppedValueAddsTwice(value: Value) returns (states: seq<State>, steps: seq<Step>)
    requires value != PythonNone
    ensures IsRun(states, steps, false) && NoEviction(steps)
    ensures states[|steps|].threads == [Returned(PythonNone), Leaving(0, value), AddedTwice]
  {
    states, steps := DroppedValueBreaksExclusion();
    states, steps := SecondAddFails(states, steps, false, value);
  }

  lemma {:induction false} EvictionAddsTwice(value: Value) returns (states: seq<State>, steps: seq<Step>)
    requires value != PythonNone
    ensures IsRun(states, steps, true)
    ensures states[|steps|].threads == [Returned(value), Leaving(0, value), AddedTwice]
  {
    states, steps := EvictionBreaksExclusion(value);
    states, steps := SecondAddFails(states, steps, true, value);
  }

  // ---------------------------------------------------------------- exactly when nothing goes wrong

  ghost predicate Overlaps(s: State) {
    exists t, u :: 0 <= t < u < |s.threads| && s.threads[t].Producing? && s.threads[u].Producing?
  }

  ghost predicate AddsTwice(s: State) {
    exists t :: 0 <= t < |s.threads| && s.threads[t].AddedTwice?
  }

  /** A run of `n` threads, in which the cache evicts the value only if it `mayEvict`. */
  ghost predicate IsRunOf(states: seq<State>, steps: seq<Step>, n: nat, cacheNone: bool, mayEvict: bool) {
    IsRun(states, steps, cacheNone) && |states[0].threads| == n && (mayEvict || NoEviction(steps))
  }

  ghost predicate NeverOverlaps(n: nat, cacheNone: bool, mayEvict: bool) {
    forall states, steps, i: nat :: IsRunOf(states, steps, n, cacheNone, mayEvict) && i < |states| ==>
      !Overlaps(states[i])
  }

  ghost predicate NeverAddsTwice(n: nat, cacheNone: bool, mayEvict: bool) {
    forall states, steps, i: nat :: IsRunOf(states, steps, n, cacheNone, mayEvict) && i < |states| ==>
      !AddsTwice(states[i])
  }

  lemma {:induction false} SameThreads(states: seq<State>, steps: seq<Step>, cacheNone: bool, i: nat)
    requires IsRun(states, steps, cacheNone) && i < |states|
    ensures |states[i].threads| == |states[0].threads|
  {
    if i > 0 {
      SameThreads(states, steps, cacheNone, i - 1);
      assert Takes(states[i - 1], steps[i - 1], cacheNone, states[i - 1 + 1]);
    }
  }

  lemma {:induction false} NobodyReturned(threads: seq<Thread>)
    requires forall t :: 0 <= t < |threads| ==> !threads[t].Returned?
    ensures Returns(threads) == 0
  {
    if threads != [] { NobodyReturned(threads[1..]); }
  }

  /** Two producers at once hold two locks, so a third thread has returned. */
  lemma {:induction false} OverlapNeedsThird(s: State)
    requires Inv(s) && Overlaps(s)
    ensures |s.threads| >= 3
  {
    var t, u :| 0 <= t < u < |s.threads| && s.threads[t].Producing? && s.threads[u].Producing?;
    assert Holds(s.threads[t]) && Holds(s.threads[u]);
    if |s.threads| == 2 { NobodyReturned(s.threads); }
  }

  /** More threads that only start to call change nothing. */
  function Padded(s: State, idle: nat): State {
    s.(threads := s.threads + seq(idle, _ => Calling))
  }

  lemma {:induction false} PaddedTakes(s: State, step: Step, cacheNone: bool, s': State, idle: nat)
    requires Takes(s, step, cacheNone, s')
    ensures Takes(Padded(s, idle), step, cacheNone, Padded(s', idle))
  {
    var p := Padded(s, idle);
    if step.Evict? {
    } else {
      assert p.threads[step.t] == s.threads[step.t];
      if step.Acquire? {
        forall t | 0 <= t < |p.threads| && Holds(p.threads[t]) ensures p.threads[t].lock != s.threads[step.t].lock {
          assert t < |s.threads| && p.threads[t] == s.threads[t];
        }
      }
      PaddedUpdate(s.threads, step.t, s'.threads[step.t], idle);
    }
  }

  lemma {:induction false} PaddedUpdate(threads: seq<Thread>, t: nat, th: Thread, idle: nat)
    requires t < |threads|
    ensures (threads + seq(idle, _ => Calling))[t := th] == threads[t := th] + seq(idle, _ => Calling)
  {
  }

  lemma {:induction false} PaddedRun(was: seq<State>, steps: seq<Step>, cacheNone: bool,
      idle: nat) returns (states: seq<State>)
    requires IsRun(was, steps, cacheNone)
    ensures IsRun(states, steps, cacheNone) && |states| == |was|
    ensures forall i :: 0 <= i < |was| ==> states[i] == Padded(was[i], idle)
  {
    states := seq(|was|, i requires 0 <= i < |was| => Padded(was[i], idle));
    forall i | 0 <= i < |steps| ensures Takes(states[i], steps[i], cacheNone, states[i + 1]) {
      PaddedTakes(was[i], steps[i], cacheNone, was[i + 1], idle);
    }
  }

  /** Three threads are enough for two producers at once, and then for adding the value twice, unless every value is
      cached and stays. */
  lemma {:induction false} ThreeAreEnough(n: nat, cacheNone: bool, mayEvict: bool)
    requires n >= 3 && (mayEvict || !cacheNone)
    ensures !NeverOverlaps(n, cacheNone, mayEvict) && !NeverAddsTwice(n, cacheNone, mayEvict)
  {
    var value := Object(0);
    var was, steps := DroppedValueBreaksExclusion();
    var was', steps' := DroppedValueAddsTwice(value);
    if cacheNone {
      was, steps := EvictionBreaksExclusion(value);
      was', steps' := EvictionAddsTwice(value);
    }
    SameThreads(was, steps, cacheNone, |steps|);
    SameThreads(was', steps', cacheNone, |steps'|);
    PaddedOverlaps(was, steps, n, cacheNone, mayEvict);
    PaddedAddsTwice(was', steps', n, cacheNone, mayEvict);
  }

  lemma {:induction false} PaddedOverlaps(was: seq<State>, steps: seq<Step>, n: nat, cacheNone: bool, mayEvict: bool)
    requires n >= 3 && IsRunOf(was, steps, 3, cacheNone, mayEvict)
    requires |was[|steps|].threads| == 3 && was[|steps|].threads[1].Producing? && was[|steps|].threads[2].Producing?
    ensures !NeverOverlaps(n, cacheNone, mayEvict)
  {
    var states := PaddedRun(was, steps, cacheNone, n - 3);
    var last := states[|steps|];
    assert last.threads[1].Producing? && last.threads[2].Producing?;
    assert IsRunOf(states, steps, n, cacheNone, mayEvict) && Overlaps(last);
  }

  lemma {:induction false} PaddedAddsTwice(was: seq<State>, steps: seq<Step>, n: nat, cacheNone: bool, mayEvict: bool)
    requires n >= 3 && IsRunOf(was, steps, 3, cacheNone, mayEvict)
    requires |was[|steps|].threads| == 3 && was[|steps|].threads[2].AddedTwice?
    ensures !NeverAddsTwice(n, cacheNone, mayEvict)
  {
    var states := PaddedRun(was, steps, cacheNone, n - 3);
    var last := states[|steps|];
    assert last.threads[2].AddedTwice?;
    assert IsRunOf(states, steps, n, cacheNone, mayEvict) && AddsTwice(last);
  }

  lemma {:induction false} OneAtATime(states: seq<State>, steps: seq<Step>, n: nat, cacheNone: bool, mayEvict: bool,
        i: nat)
    requires IsRunOf(states, steps, n, cacheNone, mayEvict) && (n <= 2 || (cacheNone && !mayEvict)) && i < |states|
    ensures !Overlaps(states[i])
  {
    if Overlaps(states[i]) {
      RunInv(states, steps, cacheNone, i);
      SameThreads(states, steps, cacheNone, i);
      OverlapNeedsThird(states[i]);
      NothingDropped(states, steps, cacheNone, i);
      var threads := states[i].threads;
      var t, u :| 0 <= t < u < |threads| && threads[t].Producing? && threads[u].Producing?;
      ProducersDoNotOverlap(states, steps, cacheNone, i, t, u);
    }
  }

  /** While a thread is in the producer nothing is cached, so its value can be added. */
  ghost predicate CanAdd(s: State) {
    && (s.cached.Some? ==> forall t :: 0 <= t < |s.threads| ==> !s.threads[t].Producing?)
    && !AddsTwice(s)
  }

  lemma {:induction false} StepKeepsCanAdd(s: State, step: Step, cacheNone: bool, s': State)
    requires CanAdd(s) && !Overlaps(s) && Takes(s, step, cacheNone, s')
    ensures CanAdd(s')
  {
    if step.Complete? { OnlyProducer(s, step.t); }
  }

  lemma {:induction false} OnlyProducer(s: State, t: nat)
    requires t < |s.threads| && s.threads[t].Producing?
    ensures Overlaps(s) || forall u :: 0 <= u < |s.threads| && u != t ==> !s.threads[u].Producing?
  {
    if u :| 0 <= u < |s.threads| && u != t && s.threads[u].Producing? { TwoProducers(s, t, u); }
  }

  lemma {:induction false} TwoProducers(s: State, t: nat, u: nat)
    requires t < |s.threads| && u < |s.threads| && t != u && s.threads[t].Producing? && s.threads[u].Producing?
    ensures Overlaps(s)
  {
    if t < u {
      assert s.threads[t].Producing? && s.threads[u].Producing?;
    } else {
      assert s.threads[u].Producing? && s.threads[t].Producing?;
    }
  }

  lemma {:induction false} OneAddition(states: seq<State>, steps: seq<Step>, n: nat, cacheNone: bool, mayEvict: bool,
        i: nat)
    requires IsRunOf(states, steps, n, cacheNone, mayEvict) && (n <= 2 || (cacheNone && !mayEvict)) && i < |states|
    ensures CanAdd(states[i])
  {
    if i > 0 {
      OneAddition(states, steps, n, cacheNone, mayEvict, i - 1);
      OneAtATime(states, steps, n, cacheNone, mayEvict, i - 1);
      assert Takes(states[i - 1], steps[i - 1], cacheNone, states[i - 1 + 1]);
      StepKeepsCanAdd(states[i - 1], steps[i - 1], cacheNone, states[i]);
    }
  }

  /** One thread at a time is in the producer, in every run of `n` threads, exactly when there are no more than two, or
      cache_none is on and nothing is evicted. */
  lemma {:induction false} SingleFlightExactly(n: nat, cacheNone: bool, mayEvict: bool)
    ensures NeverOverlaps(n, cacheNone, mayEvict) <==> n <= 2 || (cacheNone && !mayEvict)
  {
    if n <= 2 || (cacheNone && !mayEvict) {
      forall states, steps, i: nat | IsRunOf(states, steps, n, cacheNone, mayEvict) && i < |states|
        ensures !Overlaps(states[i])
      {
        OneAtATime(states, steps, n, cacheNone, mayEvict, i);
      }
    } else {
      ThreeAreEnough(n, cacheNone, mayEvict);
    }
  }

  /** In no run of `n` threads "Added same item twice" is raised, under the same condition exactly. */
  lemma {:induction false} AddsOnceExactly(n: nat, cacheNone: bool, mayEvict: bool)
    ensures NeverAddsTwice(n, cacheNone, mayEvict) <==> n <= 2 || (cacheNone && !mayEvict)
  {
    if n <= 2 || (cacheNone && !mayEvict) {
      forall states, steps, i: nat | IsRunOf(states, steps, n, cacheNone, mayEvict) && i < |states|
        ensures !AddsTwice(states[i])
      {
        OneAddition(states, steps, n, cacheNone, mayEvict, i);
      }
    } else {
      ThreeAreEnough(n, cacheNone, mayEvict);
    }
  }

  ghost predicate LosesLock(s: State) {
    exists t :: 0 <= t < |s.threads| && s.threads[t].LockGone?
  }

  ghost predicate NeverLosesLock(n: nat, cacheNone: bool, mayEvict: bool) {
    forall states, steps, i: nat :: IsRunOf(states, steps, n, cacheNone, mayEvict) && i < |states| ==>
      !LosesLock(states[i])
  }

  /** The lock of a single thread stays in the table until that thread removes it. */
  ghost predicate OwnLock(s: State) {
    forall t :: 0 <= t < |s.threads| ==>
      && |s.threads| == 1 && !s.threads[t].LockGone?
      && (HasLock(s.threads[t]) || s.threads[t].Removing? ==> s.table.Some?)
  }

  lemma {:induction false} AloneKeepsLock(states: seq<State>, steps: seq<Step>, n: nat, cacheNone: bool,
        mayEvict: bool, i: nat)
    requires IsRunOf(states, steps, n, cacheNone, mayEvict) && n <= 1 && i < |states|
    ensures OwnLock(states[i])
  {
    if i > 0 {
      AloneKeepsLock(states, steps, n, cacheNone, mayEvict, i - 1);
      assert Takes(states[i - 1], steps[i - 1], cacheNone, states[i - 1 + 1]);
    }
  }

  lemma {:induction false} TwoAreEnough(n: nat, cacheNone: bool, mayEvict: bool)
    requires n >= 2
    ensures !NeverLosesLock(n, cacheNone, mayEvict)
  {
    var was, steps := SecondMisserFails(Object(0), cacheNone);
    SameThreads(was, steps, cacheNone, |steps|);
    var states := PaddedRun(was, steps, cacheNone, n - 2);
    var last := states[|steps|];
    assert last.threads[1].LockGone?;
    assert IsRunOf(states, steps, n, cacheNone, mayEvict) && LosesLock(last);
  }

  /** In no run of `n` threads the removal of the lock fails with KeyError, exactly when there is one thread only. */
  lemma {:induction false} LockStaysExactly(n: nat, cacheNone: bool, mayEvict: bool)
    ensures NeverLosesLock(n, cacheNone, mayEvict) <==> n <= 1
  {
    if n <= 1 {
      forall states, steps, i: nat | IsRunOf(states, steps, n, cacheNone, mayEvict) && i < |states|
        ensures !LosesLock(states[i])
      {
        AloneKeepsLock(states, steps, n, cacheNone, mayEvict, i);
      }
    } else {
      TwoAreEnough(n, cacheNone, mayEvict);
    }
  }

  // ---------------------------------------------------------------- progress

  predicate IsFinished(th: Thread) {
    th.Hit? || th.Returned? || th.LockGone? || th.ProducerRaised? || th.AddedTwice?
  }

  /** What a thread does next, unless it waits for its lock. */
  function Next(t: nat, th: Thread): Step
    requires !IsFinished(th)
  {
    match th
    case Calling => Find(t)
    case Missed => LookUpLock(t)
    case Waiting(_) => Acquire(t)
    case Holding(_) => FindAgain(t)
    case Producing(_) => Raise(t)
    case Leaving(_, _) => Release(t)
    case Removing(_) => Remove(t)
  }

  /** No deadlock: a thread that has not finished can go on, or waits for a lock whose holder can. */
  lemma {:induction false} NoDeadlock(states: seq<State>, steps: seq<Step>, cacheNone: bool, i: nat, t: nat)
    returns (step: Step)
    requires IsRun(states, steps, cacheNone) && i < |states| && t < |states[i].threads|
    requires !IsFinished(states[i].threads[t])
    ensures Enabled(states[i], step) && !step.Evict?
    ensures step.t == t || (step.t < |states[i].threads| && states[i].threads[t].Waiting?
                            && Holds(states[i].threads[step.t])
                            && states[i].threads[step.t].lock == states[i].threads[t].lock)
  {
    var threads := states[i].threads;
    step := Next(t, threads[t]);
    if threads[t].Waiting? && !Free(threads, threads[t].lock) {
      var u :| 0 <= u < |threads| && Holds(threads[u]) && threads[u].lock == threads[t].lock;
      step := Next(u, threads[u]);
    }
  }

  /** A thread whose first look-up finds a value returns that value, and takes no part in the locking. */
  lemma {:induction false} FoundIsReturned(states: seq<State>, steps: seq<Step>, cacheNone: bool, i: nat, t: nat)
    requires IsRun(states, steps, cacheNone) && i < |steps| && steps[i] == Find(t)
    ensures t < |states[i].threads| && t < |states[i + 1].threads|
    ensures states[i].cached.Some? <==> states[i + 1].threads[t].Hit?
    ensures states[i].cached.Some? ==>
              states[i + 1] == states[i].(threads := states[i].threads[t := Hit(states[i].cached.value)])
  {
    assert Takes(states[i], steps[i], cacheNone, states[i + 1]);
  }
}
