/** The blocking queue over every interleaving. */
module QueueProofs {
  import opened Words
  import opened Dictionary
  import opened QueueSpec

  // ----- Invariants -----

  /** The counters count what they are meant to; `num` does so modulo 2^32. */
  ghost predicate Counters(s: State) {
    && s.num == |s.items| % WORD
    && s.asleep !! s.woken
    && s.waiting == |s.asleep| + |s.woken|
    && s.watching == if s.deinit == Sleeping || s.deinit == Signalled then 1 else 0
  }

  /** No lost wake-up: while somebody sleeps unsignalled, every item has a woken dequeuer. */
  ghost predicate NoLostWakeup(s: State) {
    s.asleep != {} ==> s.num <= |s.woken|
  }

  /** Once deinit has closed the queue and nobody reopens it, nobody sleeps, and whoever
      deinit waits for still has to run. */
  ghost predicate Draining(s: State) {
    && !s.open
    && s.asleep == {}
    && (s.deinit == Sleeping ==> s.woken != {})
  }

  /** q_deinit has closed the queue and nobody has reopened it. */
  predicate Closing(r: Run) {
    r.s.deinit != NotCalled && !r.reopened
  }

  ghost predicate Invariant(r: Run) {
    && (r.s.deinit == Finished ==> r.s.asleep == {} && r.s.woken == {})
    && (r.s.deinit != Finished ==>
      && Counters(r.s)
      && NoLostWakeup(r.s)
      && r.accepted == r.delivered + r.s.items
      && r.s.freed == []
      && (r.s.deinit == Sleeping ==> r.s.waiting != 0)
      && (Closing(r) ==> Draining(r.s)))
    && (r.s.deinit == Finished ==>
      r.accepted == r.delivered + r.leftover && r.s.items == [] && r.s.freed == FreedData(r.leftover))
  }

  // ----- Cardinalities -----

  lemma {:induction false} BoundedSet(s: set<int>, n: nat)
    requires forall x | x in s :: 0 <= x < n
    ensures |s| <= n
  {
    if n == 0 {
      assert forall x :: x !in s;
      assert s == {};
    } else {
      var rest := s - {n - 1};
      BoundedSet(rest, n - 1);
      assert s <= rest + {n - 1};
      SubsetSize(s, rest + {n - 1});
    }
  }

  lemma {:induction false} SubsetSize<T>(a: set<T>, b: set<T>)
    requires a <= b
    ensures |a| <= |b|
  {
    if a == {} {
    } else {
      var x :| x in a;
      SubsetSize(a - {x}, b - {x});
    }
  }

  /** There are not enough threads to make `waiting` wrap. */
  lemma ThreadsFit(s: State)
    requires s.asleep !! s.woken
    ensures |s.asleep| + |s.woken| < WORD
  {
    var all: set<int> := s.asleep + s.woken;
    BoundedSet(all, 0xFFFF_FFFF);
    assert |s.asleep + s.woken| == |s.asleep| + |s.woken|;
  }

  lemma WakeSizes(s: State, wake: set<Tid>)
    requires s.asleep !! s.woken && CanWake(s, wake)
    ensures var w := Wake(s, wake);
      && w.asleep !! w.woken
      && |w.asleep| + |w.woken| == |s.asleep| + |s.woken|
      && |w.woken| == |s.woken| + |wake|
      && (s.asleep != {} ==> |w.woken| >= |s.woken| + 1)
  {}

  lemma IncModulo(n: nat)
    ensures Inc(n % WORD) == (n + 1) % WORD
  {}

  lemma AwakeSizes(s: State, t: Tid)
    requires s.asleep !! s.woken && t in s.asleep + s.woken
    ensures var s' := Awake(s, t);
      && |s'.asleep| + |s'.woken| == |s.asleep| + |s.woken| - 1
      && |s.woken| <= |s'.woken| + 1
      && (t in s.asleep ==> |s.woken| == |s'.woken|)
  {}

  // ----- One step -----

  lemma EnqueKeeps(r: Run, item: Item, wake: set<Tid>)
    requires Invariant(r) && Enabled(r.s, StepEnque(item, wake))
    ensures Invariant(Apply(r, StepEnque(item, wake)))
  {
    WakeSizes(r.s, wake);
    IncModulo(|r.s.items|);
    assert r.delivered + r.s.items + [item] == r.delivered + (r.s.items + [item]);
  }

  /** What holds when a dequeuer has the mutex: it may itself be the one woken for an item,
      and the one that deinit waits for. */
  ghost predicate InRegion(r: Run, t: Tid) {
    && r.s.deinit != Finished
    && t !in r.s.asleep + r.s.woken
    && Counters(r.s)
    && (r.s.asleep != {} ==> r.s.num <= |r.s.woken| + 1)
    && r.accepted == r.delivered + r.s.items
    && r.s.freed == []
    && (Closing(r) ==> !r.s.open && r.s.asleep == {})
  }

  lemma DequeueSleeps(r: Run, t: Tid)
    requires InRegion(r, t) && r.s.open && r.s.num == 0
    ensures Invariant(r.(s := Dequeue(r.s, t).0))
  {
    ThreadsFit(Dequeue(r.s, t).0);
    assert |r.s.asleep + {t}| == |r.s.asleep| + 1;
  }

  lemma DequeueTakes(r: Run, t: Tid)
    requires InRegion(r, t) && r.s.num != 0
    ensures var (s, o) := Dequeue(r.s, t); Invariant(Deliver(r, s, o))
  {}

  /** The rest of q_dequeue, for a thread that holds the mutex. */
  lemma DequeueKeeps(r: Run, t: Tid)
    requires InRegion(r, t)
    ensures var (s, o) := Dequeue(r.s, t); Invariant(Deliver(r, s, o))
  {
    if r.s.num != 0 {
      DequeueTakes(r, t);
    } else if r.s.open {
      DequeueSleeps(r, t);
      assert r.delivered + [] == r.delivered;
    }
  }

  lemma AwakeCounts(s: State, t: Tid)
    requires Counters(s) && NoLostWakeup(s) && t in s.asleep + s.woken
    ensures var s' := Awake(s, t); Counters(s') && (s'.asleep != {} ==> s'.num <= |s'.woken| + 1)
  {
    ThreadsFit(s);
    AwakeSizes(s, t);
  }

  lemma AwakeInRegion(r: Run, t: Tid)
    requires Invariant(r) && Enabled(r.s, StepResume(t))
    ensures InRegion(r.(s := Awake(r.s, t)), t)
  {
    AwakeCounts(r.s, t);
  }

  lemma DeinitKeeps(r: Run)
    requires Invariant(r) && Enabled(r.s, StepDeinit)
    ensures Invariant(Apply(r, StepDeinit))
  {}

  lemma SetOpenKeeps(r: Run, wake: set<Tid>)
    requires Invariant(r) && r.s.deinit != Finished && CanWake(r.s, wake)
    ensures Invariant(Apply(r, StepClose(wake)))
    ensures Invariant(Apply(r, StepOpen(wake)))
  {
    WakeSizes(r.s, wake);
  }

  lemma StepKeeps(r: Run, step: Step)
    requires Invariant(r) && Enabled(r.s, step)
    ensures Invariant(Apply(r, step))
  {
    match step
    case StepEnque(item, wake) => EnqueKeeps(r, item, wake);
    case StepDequeue(t) => DequeueKeeps(r, t);
    case StepResume(t) =>
      AwakeInRegion(r, t);
      DequeueKeeps(r.(s := Awake(r.s, t)), t);
    case StepDeinit => DeinitKeeps(r);
    case StepDeinitResume =>
    case StepClose(wake) => SetOpenKeeps(r, wake);
    case StepOpen(wake) => SetOpenKeeps(r, wake);
  }

  // ----- Every interleaving -----

  lemma {:induction false} EveryReachableState(schedule: seq<Step>)
    requires Exec(schedule).Some?
    ensures Invariant(Exec(schedule).value)
  {
    if schedule == [] {
    } else {
      var before := schedule[..|schedule| - 1];
      EveryReachableState(before);
      StepKeeps(Exec(before).value, schedule[|schedule| - 1]);
    }
  }

  // ----- What follows -----

  /** FIFO without loss or duplication: what was accepted is what was delivered followed by
      the chain, and in the end by what deinit found.  The queue frees no data but that of
      these leftovers, if they ask for it. */
  lemma Fifo(schedule: seq<Step>)
    requires Exec(schedule).Some?
    ensures var r := Exec(schedule).value;
      && r.accepted == r.delivered + (if r.s.deinit == Finished then r.leftover else r.s.items)
      && (r.s.deinit != Finished ==> r.s.num == |r.s.items| % WORD)
      && r.s.freed == if r.s.deinit == Finished then FreedData(r.leftover) else []
  {
    EveryReachableState(schedule);
  }

  /** No item sits in the queue with only sleeping consumers: while somebody sleeps, there are
      at least as many dequeuers on their way as items, exactly as long as `num` has not
      wrapped. */
  lemma NoItemIsStranded(schedule: seq<Step>)
    requires Exec(schedule).Some?
    ensures var s := Exec(schedule).value.s;
      s.asleep != {} ==>
        && s.num <= |s.woken|
        && (|s.items| <= |s.woken| <==> |s.items| < WORD)
        && (s.woken == {} ==> |s.items| % WORD == 0)
  {
    EveryReachableState(schedule);
    var s := Exec(schedule).value.s;
    SmallModulo(|s.items|);
    if s.asleep != {} {
      ThreadsFit(s);
    }
  }

  lemma SmallModulo(n: nat)
    ensures n < WORD ==> n % WORD == n
  {}

  /** The dequeuer that finds `num` nonzero finds a head, so no step dereferences NULL. */
  lemma HeadIsThere(schedule: seq<Step>, step: Step)
    requires Exec(schedule).Some?
    ensures Enabled(Exec(schedule).value.s, step) <==> Exec(schedule + [step]).Some?
  {
    EveryReachableState(schedule);
    assert (schedule + [step])[..|schedule|] == schedule;
    SmallModulo(0);
  }

  /** The schedule leaves `n` items in the queue with nobody but sleeping consumers. */
  ghost predicate Strands(schedule: seq<Step>, n: nat) {
    && Exec(schedule).Some?
    && |Exec(schedule).value.s.items| == n
    && Exec(schedule).value.s.asleep != {} && Exec(schedule).value.s.woken == {}
  }

  /** Exactly the multiples of 2^32 items can be left so, because `num` is then 0. */
  lemma StrandedExactly(item: Item, n: nat)
    ensures (exists schedule :: Strands(schedule, n)) <==> n % WORD == 0
  {
    if schedule :| Strands(schedule, n) {
      NoItemIsStranded(schedule);
    }
    if n % WORD == 0 {
      FullCircleStrands(item, n);
      assert Strands(FullCircle(item, n), n);
    }
  }

  function Flood(item: Item, n: nat): seq<Step> {
    [StepDequeue(0), StepEnque(item, {0})] + seq(n, _ => StepEnque(item, {}))
  }

  /** One dequeuer is woken by the first of `n` items, but comes back when all are there. */
  function FullCircle(item: Item, n: nat): seq<Step> {
    if n == 0 then [StepDequeue(0)] else Flood(item, n - 1) + [StepResume(0)]
  }

  lemma FullCircleStrands(item: Item, n: nat)
    requires n % WORD == 0
    ensures var r := Exec(FullCircle(item, n));
      && r.Some?
      && |r.value.s.items| == n
      && r.value.s.asleep == {0} && r.value.s.woken == {}
  {
    if n == 0 {
      assert [StepDequeue(0)][..0] == [];
      assert Exec([]) == Some(START);
    } else {
      EnqueMany(item, n - 1);
      var before := Flood(item, n - 1);
      assert FullCircle(item, n)[..|before|] == before;
      var s := Exec(before).value.s;
      assert s.num == 0;
      assert Awake(s, 0).woken == {};
    }
  }

  lemma {:induction false} EnqueMany(item: Item, n: nat)
    ensures var r := Exec(Flood(item, n));
      && r.Some?
      && |r.value.s.items| == n + 1
      && r.value.s == State(r.value.s.items, (n + 1) % WORD, 1, 0, true, {}, {0}, NotCalled, [])
  {
    if n == 0 {
      assert Flood(item, 0) == [StepDequeue(0), StepEnque(item, {0})];
      assert Flood(item, 0)[..1] == [StepDequeue(0)];
      assert [StepDequeue(0)][..0] == [];
      assert Exec([]) == Some(START);
      var r1 := Exec([StepDequeue(0)]);
      assert r1.Some? && r1.value.s.asleep == {0} && r1.value.s.waiting == 1;
      assert CanWake(r1.value.s, {0});
      assert Wake(r1.value.s, {0}).asleep == {};
    } else {
      EnqueMany(item, n - 1);
      assert Flood(item, n)[..n + 1] == Flood(item, n - 1);
      IncModulo(n);
      var s := Exec(Flood(item, n - 1)).value.s;
      assert Wake(s, {}) == s;
    }
  }

  // ----- Shutdown -----

  /** Deadlock freedom of the shutdown: before it is over, a woken dequeuer or the signalled
      deinit can run. */
  lemma ShutdownNeverStuck(schedule: seq<Step>)
    requires Exec(schedule).Some?
    requires Closing(Exec(schedule).value) && Exec(schedule).value.s.deinit != Finished
    ensures var s := Exec(schedule).value.s;
      && s.asleep == {}
      && (s.woken != {} || s.deinit == Signalled)
  {
    EveryReachableState(schedule);
  }

  /** Reopened or not, deinit sleeps unsignalled only while some dequeuer is still inside its
      wait, and whoever is the last to leave signals it. */
  lemma DeinitIsNotForgotten(schedule: seq<Step>)
    requires Exec(schedule).Some? && Exec(schedule).value.s.deinit == Sleeping
    ensures Exec(schedule).value.s.asleep + Exec(schedule).value.s.woken != {}
  {
    EveryReachableState(schedule);
  }

  /** One step of anybody but q_open: no thread enters a wait. */
  lemma NobodyStartsToWait(r: Run, step: Step)
    requires Invariant(r) && Closing(r)
    requires Enabled(r.s, step) && !step.StepOpen?
    ensures var s, s' := r.s, Apply(r, step).s;
      && s'.waiting <= s.waiting
      && s'.asleep + s'.woken <= s.asleep + s.woken
  {}

  /** While the queue is shut down `waiting` only falls. */
  lemma WaitingOnlyFalls(schedule: seq<Step>, step: Step)
    requires Exec(schedule).Some? && Exec(schedule + [step]).Some? && !step.StepOpen?
    requires Closing(Exec(schedule).value)
    ensures var s, s' := Exec(schedule).value.s, Exec(schedule + [step]).value.s;
      && s'.waiting <= s.waiting
      && s'.asleep + s'.woken <= s.asleep + s.woken
  {
    EveryReachableState(schedule);
    assert (schedule + [step])[..|schedule|] == schedule;
    NobodyStartsToWait(Exec(schedule).value, step);
  }

  /** When deinit is over no thread is inside a condition wait, reopened or not. */
  lemma NobodyWaitsAtTheEnd(schedule: seq<Step>)
    requires Exec(schedule).Some? && Exec(schedule).value.s.deinit == Finished
    ensures Exec(schedule).value.s.asleep == {} && Exec(schedule).value.s.woken == {}
  {
    EveryReachableState(schedule);
  }

  ghost predicate ShuttingDown(r: Run) {
    Invariant(r) && Closing(r)
  }

  /** How many of the steps are returns from the condition wait, spurious or not. */
  function Resumes(steps: seq<Step>): nat {
    if steps == [] then 0
    else Resumes(steps[..|steps| - 1]) + if steps[|steps| - 1].StepResume? then 1 else 0
  }

  /** Whoever comes out of a wait during the shutdown leaves for good, and nobody else changes
      `waiting`. */
  lemma OneStepOfShutdown(r: Run, step: Step)
    requires ShuttingDown(r) && Enabled(r.s, step) && !step.StepOpen?
    ensures Closing(Apply(r, step))
    ensures Apply(r, step).s.waiting + (if step.StepResume? then 1 else 0) == r.s.waiting
  {
    if step.StepResume? {
      ThreadsFit(r.s);
      AwakeSizes(r.s, step.t);
    }
  }

  /** The next step of deinit is its last. */
  predicate DeinitCanEnd(r: Run) {
    && Enabled(r.s, StepDeinitResume)
    && (r.s.num != 0 ==> r.s.items != [])
    && Apply(r, StepDeinitResume).s.deinit == Finished
  }

  /** The next step of deinit is its last exactly when no thread is left inside a wait, and it
      has then been signalled to take it. */
  lemma LastOneOut(r: Run)
    requires ShuttingDown(r)
    ensures r.s.deinit != Finished ==>
      && (DeinitCanEnd(r) <==> r.s.waiting == 0)
      && (r.s.waiting == 0 ==> r.s.deinit == Signalled)
  {}

  lemma LastStep(before: seq<Step>, step: Step)
    requires Exec(before + [step]).Some?
    ensures Exec(before).Some? && Enabled(Exec(before).value.s, step)
    ensures var r := Exec(before).value;
      (r.s.num != 0 ==> r.s.items != []) && Exec(before + [step]).value == Apply(r, step)
  {
    assert (before + [step])[..|before|] == before;
  }

  lemma {:induction false} WaitingBalance(schedule: seq<Step>, steps: seq<Step>)
    requires Exec(schedule).Some? && Exec(schedule + steps).Some?
    requires Closing(Exec(schedule).value)
    requires forall step | step in steps :: !step.StepOpen?
    ensures var r, r' := Exec(schedule).value, Exec(schedule + steps).value;
      Closing(r') && r'.s.waiting + Resumes(steps) == r.s.waiting
    decreases |steps|
  {
    if steps == [] {
      assert schedule + steps == schedule;
    } else {
      var rest, step := steps[..|steps| - 1], steps[|steps| - 1];
      assert steps == rest + [step];
      var before := schedule + rest;
      assert schedule + steps == before + [step];
      LastStep(before, step);
      WaitingBalance(schedule, rest);
      EveryReachableState(before);
      OneStepOfShutdown(Exec(before).value, step);
    }
  }

  /** The shutdown ends, amid whatever newcomers, rejected enqueues, closes and spurious wake-ups
      between its steps: `waiting` falls by one for every thread that comes out of its wait, so
      no more come out than there were; and when as many have, deinit has been signalled and
      its next step is its last. */
  lemma ShutdownEnds(schedule: seq<Step>, steps: seq<Step>)
    requires Exec(schedule).Some? && Exec(schedule + steps).Some?
    requires Closing(Exec(schedule).value)
    requires forall step | step in steps :: !step.StepOpen?
    ensures var r, r' := Exec(schedule).value, Exec(schedule + steps).value;
      && r'.s.waiting + Resumes(steps) == r.s.waiting
      && (r'.s.deinit != Finished ==>
        && (DeinitCanEnd(r') <==> Resumes(steps) == r.s.waiting)
        && (Resumes(steps) == r.s.waiting ==> r'.s.deinit == Signalled))
  {
    WaitingBalance(schedule, steps);
    EveryReachableState(schedule + steps);
    LastOneOut(Exec(schedule + steps).value);
  }

  /** A step of the shutdown itself, not spurious: somebody woken runs. */
  predicate Internal(s: State, step: Step) {
    || (step.StepResume? && step.t in s.woken)
    || (step.StepDeinitResume? && s.deinit == Signalled)
  }

  function Pending(s: State): nat {
    2 * (|s.asleep| + |s.woken|) + if s.deinit == Signalled then 1 else 0
  }

  lemma InternalStepProgresses(r: Run, step: Step)
    requires ShuttingDown(r) && Enabled(r.s, step) && Internal(r.s, step)
    ensures ShuttingDown(Apply(r, step))
    ensures Pending(Apply(r, step).s) < Pending(r.s)
  {
    StepKeeps(r, step);
    if step.StepResume? {
      AwakeSizes(r.s, step.t);
    }
  }

  /** The state after some steps of the shutdown. */
  ghost predicate Drains(r: Run, steps: seq<Step>, end: Run)
    decreases |steps|
  {
    if steps == [] then r == end
    else
      && ShuttingDown(r) && Enabled(r.s, steps[0]) && Internal(r.s, steps[0])
      && Drains(Apply(r, steps[0]), steps[1..], end)
  }

  /** Left alone, whatever the order in which woken threads run, there is a bound on the number
      of steps, and where no such step is left deinit has finished. */
  lemma {:induction false} QuietShutdownEnds(r: Run, steps: seq<Step>, end: Run)
    requires ShuttingDown(r) && Drains(r, steps, end)
    ensures |steps| <= Pending(r.s)
    ensures (forall step :: !(Enabled(end.s, step) && Internal(end.s, step))) <==> end.s.deinit == Finished
    decreases |steps|
  {
    if steps != [] {
      InternalStepProgresses(r, steps[0]);
      QuietShutdownEnds(Apply(r, steps[0]), steps[1..], end);
    } else if end.s.deinit != Finished {
      if end.s.deinit == Signalled {
        assert Enabled(end.s, StepDeinitResume) && Internal(end.s, StepDeinitResume);
      } else {
        var t :| t in end.s.woken;
        assert Enabled(end.s, StepResume(t)) && Internal(end.s, StepResume(t));
      }
    }
  }

  // ----- Close -----

  /** q_close does not release everybody: here one dequeuer sleeps on in a closed queue, and
      no woken thread is left to do anything. */
  lemma CloseLeavesASleeper()
    ensures var r := Exec([StepDequeue(0), StepDequeue(1), StepClose({0}), StepResume(0)]);
      && r.Some?
      && !r.value.s.open && r.value.s.asleep == {1} && r.value.s.woken == {}
      && forall step :: !(Enabled(r.value.s, step) && Internal(r.value.s, step))
  {
    var s1 := [StepDequeue(0)];
    var s2 := [StepDequeue(0), StepDequeue(1)];
    var s3 := [StepDequeue(0), StepDequeue(1), StepClose({0})];
    var all := [StepDequeue(0), StepDequeue(1), StepClose({0}), StepResume(0)];
    assert s1[..0] == [] && s2[..1] == s1 && s3[..2] == s2 && all[..3] == s3;
    assert Exec([]) == Some(START);
    assert Exec(s1).Some? && Exec(s1).value.s.asleep == {0};
    assert Exec(s2).Some? && Exec(s2).value.s.asleep == {0, 1} && Exec(s2).value.s.waiting == 2;
    assert Exec(s3).Some? && Exec(s3).value.s.woken == {0};
    assert Exec(s3).value.s.asleep == {1};
  }

  /** A close whose signal wakes one thread leaves nobody asleep exactly when at most one
      thread slept. */
  lemma CloseReleasesAtMostOne(schedule: seq<Step>, wake: set<Tid>)
    requires Exec(schedule).Some? && Enabled(Exec(schedule).value.s, StepClose(wake)) && |wake| <= 1
    ensures var s := Exec(schedule).value.s;
      SetOpen(s, false, wake).asleep == {} <==> |s.asleep| <= 1
  {
    EveryReachableState(schedule);
    var s := Exec(schedule).value.s;
    assert s.asleep == (s.asleep - wake) + wake;
    if |s.asleep| <= 1 && s.asleep != {} {
      var t :| t in wake;
      assert |s.asleep - {t}| == |s.asleep| - 1;
    }
  }
}
