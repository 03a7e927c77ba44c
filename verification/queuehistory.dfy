/** What the queue does, told from the schedule alone: no counter, no chain of nodes. */
module QueueHistory {
  import opened Words
  import opened Dictionary
  import opened QueueSpec
  import opened QueueProofs

  // ----- The schedule as the reference -----

  /** The last word on the flag. */
  predicate SaysOpen(schedule: seq<Step>) {
    schedule == [] ||
    match schedule[|schedule| - 1]
    case StepOpen(_) => true
    case StepClose(_) => false
    case StepDeinit => false
    case _ => SaysOpen(schedule[..|schedule| - 1])
  }

  /** The items that came while the queue was open. */
  function Accepted(schedule: seq<Step>): seq<Item> {
    if schedule == [] then []
    else
      var before, step := schedule[..|schedule| - 1], schedule[|schedule| - 1];
      Accepted(before) + if step.StepEnque? && SaysOpen(before) then [step.item] else []
  }

  /** A thread has the mutex and is at the loop test of q_dequeue. */
  predicate Asks(step: Step) {
    step.StepDequeue? || step.StepResume?
  }

  /** How many items have left: whoever asks takes one, unless there is none, modulo 2^32. */
  function Left(schedule: seq<Step>): (n: nat)
    ensures n <= |Accepted(schedule)|
    decreases |schedule|, 0
  {
    if schedule == [] then 0
    else
      var before := schedule[..|schedule| - 1];
      Left(before) + if Asks(schedule[|schedule| - 1]) && !LooksEmpty(before) then 1 else 0
  }

  predicate LooksEmpty(schedule: seq<Step>)
    decreases |schedule|, 1
  {
    (|Accepted(schedule)| - Left(schedule)) % WORD == 0
  }

  /** The thread that asks has to wait. */
  predicate MustWait(before: seq<Step>, step: Step) {
    Asks(step) && SaysOpen(before) && LooksEmpty(before)
  }

  /** An item, a close or an opening is announced to those who wait. */
  predicate Announces(before: seq<Step>, step: Step) {
    step.StepClose? || step.StepOpen? || (step.StepEnque? && SaysOpen(before))
  }

  /** The threads inside a wait that no signal has reached, and those that one has: whoever asks
      is inside no more, unless it has to wait again. */
  function Sleepers(schedule: seq<Step>): set<Tid> {
    if schedule == [] then {}
    else
      var before, step := schedule[..|schedule| - 1], schedule[|schedule| - 1];
      if Asks(step) then Sleepers(before) - {step.t} + (if MustWait(before, step) then {step.t} else {})
      else if Announces(before, step) then Sleepers(before) - step.wake
      else if step.StepDeinit? then {}
      else Sleepers(before)
  }

  function Woken(schedule: seq<Step>): set<Tid> {
    if schedule == [] then {}
    else
      var before, step := schedule[..|schedule| - 1], schedule[|schedule| - 1];
      if Asks(step) then Woken(before) - {step.t}
      else if Announces(before, step) then Woken(before) + step.wake
      else if step.StepDeinit? then Woken(before) + Sleepers(before)
      else Woken(before)
  }

  predicate NobodyInside(schedule: seq<Step>) {
    Sleepers(schedule) == {} && Woken(schedule) == {}
  }

  /** Where deinit is: it stays while threads are inside, and hears of every announcement and of
      every thread that asks and does not wait. */
  function DeinitIs(schedule: seq<Step>): Deinit {
    if schedule == [] then NotCalled
    else
      var before, step := schedule[..|schedule| - 1], schedule[|schedule| - 1];
      if step.StepDeinit? || step.StepDeinitResume? then
        if NobodyInside(before) then Finished else Sleeping
      else if DeinitIs(before) == Sleeping && (Announces(before, step) || (Asks(step) && !MustWait(before, step)))
      then Signalled
      else DeinitIs(before)
  }

  // ----- The queue without its counters -----

  /** What there is to see of the queue; `chain` is what deinit found once it is over. */
  datatype View = View(
    open: bool, accepted: seq<Item>, delivered: seq<Item>, chain: seq<Item>,
    asleep: set<Tid>, woken: set<Tid>, deinit: Deinit)

  function ViewOf(r: Run): View {
    View(r.s.open, r.accepted, r.delivered, if r.s.deinit == Finished then r.leftover else r.s.items,
      r.s.asleep, r.s.woken, r.s.deinit)
  }

  function Tell(v: View): View {
    if v.deinit == Sleeping then v.(deinit := Signalled) else v
  }

  /** Whoever asks takes the head, or waits, or leaves with nothing. */
  function Ask(v: View, t: Tid): View {
    var out := v.(asleep := v.asleep - {t}, woken := v.woken - {t});
    if |v.chain| % WORD != 0 then Tell(out.(delivered := v.delivered + [v.chain[0]], chain := v.chain[1..]))
    else if v.open then out.(asleep := out.asleep + {t})
    else Tell(out)
  }

  function Announce(v: View, wake: set<Tid>): View {
    Tell(v.(asleep := v.asleep - wake, woken := v.woken + wake))
  }

  function Await(v: View): View {
    v.(deinit := if v.asleep == {} && v.woken == {} then Finished else Sleeping)
  }

  function Next(v: View, step: Step): View {
    match step
    case StepEnque(item, wake) =>
      if v.open then Announce(v.(accepted := v.accepted + [item], chain := v.chain + [item]), wake) else v
    case StepDequeue(t) => Ask(v, t)
    case StepResume(t) => Ask(v, t)
    case StepDeinit => Await(v.(open := false, asleep := {}, woken := v.woken + v.asleep))
    case StepDeinitResume => Await(v)
    case StepClose(wake) => Announce(v.(open := false), wake)
    case StepOpen(wake) => Announce(v.(open := true), wake)
  }

  lemma AskSeen(r: Run, t: Tid)
    requires InRegion(r, t)
    ensures var (s, o) := Dequeue(r.s, t); ViewOf(Deliver(r, s, o)) == Ask(ViewOf(r), t)
  {
    AskOutside(ViewOf(r), t);
    assert r.delivered + [] == r.delivered;
  }

  /** A thread that is inside no wait, or no longer. */
  lemma AskOutside(v: View, t: Tid)
    requires t !in v.asleep && t !in v.woken
    ensures Ask(v, t) ==
      if |v.chain| % WORD != 0 then Tell(v.(delivered := v.delivered + [v.chain[0]], chain := v.chain[1..]))
      else if v.open then v.(asleep := v.asleep + {t})
      else Tell(v)
  {
    assert v.asleep - {t} == v.asleep && v.woken - {t} == v.woken;
  }

  lemma ResumeSeen(r: Run, t: Tid)
    requires Invariant(r) && Enabled(r.s, StepResume(t))
    ensures ViewOf(Apply(r, StepResume(t))) == Ask(ViewOf(r), t)
  {
    AwakeInRegion(r, t);
    AskSeen(r.(s := Awake(r.s, t)), t);
    AskTwice(ViewOf(r), t);
  }

  lemma AskTwice(v: View, t: Tid)
    ensures Ask(v.(asleep := v.asleep - {t}, woken := v.woken - {t}), t) == Ask(v, t)
  {
    assert v.asleep - {t} - {t} == v.asleep - {t} && v.woken - {t} - {t} == v.woken - {t};
  }

  lemma AnnounceSeen(r: Run, s: State, wake: set<Tid>)
    requires Counters(s) && CanWake(s, wake)
    ensures ViewOf(r.(s := SignalWaiting(BroadcastWatching(s), wake))) == Announce(ViewOf(r.(s := s)), wake)
  {
    if s.waiting == 0 {
      assert s.asleep == {} && wake == {};
      assert s.asleep - wake == s.asleep && s.woken + wake == s.woken;
    }
  }

  lemma DeinitSeen(r: Run)
    requires Invariant(r) && Enabled(r.s, StepDeinit)
    ensures ViewOf(Apply(r, StepDeinit)) == Next(ViewOf(r), StepDeinit)
  {
    if r.s.waiting == 0 {
      assert r.s.asleep == {} && r.s.woken == {};
      assert r.s.woken + r.s.asleep == {};
    } else {
      assert r.s.asleep != {} || r.s.woken != {};
      assert r.s.asleep - r.s.asleep == {};
    }
  }

  lemma DeinitResumeSeen(r: Run)
    requires Invariant(r) && Enabled(r.s, StepDeinitResume)
    ensures ViewOf(Apply(r, StepDeinitResume)) == Next(ViewOf(r), StepDeinitResume)
  {
    assert r.s.waiting == 0 <==> r.s.asleep == {} && r.s.woken == {};
  }

  /** The counters do what the sets of threads and the chain would do. */
  lemma StepSeen(r: Run, step: Step)
    requires Invariant(r) && Enabled(r.s, step)
    ensures ViewOf(Apply(r, step)) == Next(ViewOf(r), step)
  {
    match step
    case StepEnque(item, wake) =>
      IncModulo(|r.s.items|);
      AnnounceSeen(r, r.s.(items := r.s.items + [item], num := Inc(r.s.num)), wake);
    case StepDequeue(t) => AskSeen(r, t);
    case StepResume(t) => ResumeSeen(r, t);
    case StepDeinit => DeinitSeen(r);
    case StepDeinitResume => DeinitResumeSeen(r);
    case StepClose(wake) => AnnounceSeen(r, r.s.(open := false), wake);
    case StepOpen(wake) => AnnounceSeen(r, r.s.(open := true), wake);
  }

  // ----- The queue is what the schedule says -----

  function Foretold(schedule: seq<Step>): View {
    View(SaysOpen(schedule), Accepted(schedule), Accepted(schedule)[..Left(schedule)], Accepted(schedule)[Left(schedule)..],
      Sleepers(schedule), Woken(schedule), DeinitIs(schedule))
  }

  /** One step more. */
  lemma NextTold(before: seq<Step>, step: Step)
    ensures var all := before + [step];
      && SaysOpen(all) == (step.StepOpen? || (!step.StepClose? && !step.StepDeinit? && SaysOpen(before)))
      && Accepted(all) == Accepted(before) + (if step.StepEnque? && SaysOpen(before) then [step.item] else [])
      && Left(all) == Left(before) + (if Asks(step) && !LooksEmpty(before) then 1 else 0)
    ensures var all := before + [step];
      && Sleepers(all) == (
        if Asks(step) then Sleepers(before) - {step.t} + (if MustWait(before, step) then {step.t} else {})
        else if Announces(before, step) then Sleepers(before) - step.wake
        else if step.StepDeinit? then {} else Sleepers(before))
      && Woken(all) == (
        if Asks(step) then Woken(before) - {step.t}
        else if Announces(before, step) then Woken(before) + step.wake
        else if step.StepDeinit? then Woken(before) + Sleepers(before) else Woken(before))
    ensures DeinitIs(before + [step]) ==
      if step.StepDeinit? || step.StepDeinitResume? then if NobodyInside(before) then Finished else Sleeping
      else if DeinitIs(before) == Sleeping && (Announces(before, step) || (Asks(step) && !MustWait(before, step)))
      then Signalled
      else DeinitIs(before)
  {
    var all := before + [step];
    assert all[..|all| - 1] == before && all[|all| - 1] == step;
  }

  lemma NextItems(before: seq<Step>, step: Step)
    ensures var v, w := Next(Foretold(before), step), Foretold(before + [step]);
      v.open == w.open && v.accepted == w.accepted && v.delivered == w.delivered && v.chain == w.chain
  {
    NextTold(before, step);
    var all, n := Accepted(before), Left(before);
    assert all + [] == all;
    if step.StepEnque? {
      assert (all + [step.item])[..n] == all[..n] && (all + [step.item])[n..] == all[n..] + [step.item];
    } else if Asks(step) && n < |all| {
      assert all[n..][1..] == all[n + 1..] && all[..n] + [all[n]] == all[..n + 1];
    }
  }

  lemma NextThreads(before: seq<Step>, step: Step)
    ensures var v, w := Next(Foretold(before), step), Foretold(before + [step]);
      v.asleep == w.asleep && v.woken == w.woken && v.deinit == w.deinit
  {
    NextTold(before, step);
  }

  lemma NextForetold(before: seq<Step>, step: Step)
    ensures Foretold(before + [step]) == Next(Foretold(before), step)
  {
    NextItems(before, step);
    NextThreads(before, step);
  }

  /** In every state that any interleaving reaches the whole queue is what the schedule says:
      the flag, what was accepted and delivered and what is left, who sleeps and who has been
      signalled, and where deinit is. */
  lemma {:induction false} EveryStateForetold(schedule: seq<Step>)
    requires Exec(schedule).Some?
    ensures ViewOf(Exec(schedule).value) == Foretold(schedule)
  {
    if schedule == [] {
    } else {
      var before, step := schedule[..|schedule| - 1], schedule[|schedule| - 1];
      assert schedule == before + [step];
      EveryStateForetold(before);
      EveryReachableState(before);
      StepSeen(Exec(before).value, step);
      NextForetold(before, step);
    }
  }

  // ----- What follows -----

  /** A thread that asks takes the head whenever there is an item, modulo 2^32, in an open queue
      and in a closed one; it waits exactly in an open queue that has none. */
  lemma AskExact(schedule: seq<Step>, step: Step)
    requires Exec(schedule).Some? && Exec(schedule + [step]).Some? && Asks(step)
    ensures var v, v' := ViewOf(Exec(schedule).value), ViewOf(Exec(schedule + [step]).value);
      var none := |v.chain| % WORD == 0;
      && v'.delivered == v.delivered + (if none then [] else [v.chain[0]])
      && v'.chain == (if none then v.chain else v.chain[1..])
      && (step.t in v'.asleep <==> v.open && none) && step.t !in v'.woken
  {
    EveryReachableState(schedule);
    LastStep(schedule, step);
    StepSeen(Exec(schedule).value, step);
    AskMeaning(ViewOf(Exec(schedule).value), step.t);
  }

  lemma AskMeaning(v: View, t: Tid)
    ensures var v' := Ask(v, t);
      var none := |v.chain| % WORD == 0;
      && v'.delivered == v.delivered + (if none then [] else [v.chain[0]])
      && v'.chain == (if none then v.chain else v.chain[1..])
      && (t in v'.asleep <==> v.open && none) && t !in v'.woken
  {
    assert v.delivered + [] == v.delivered;
  }

  /** How many of the steps ask. */
  function Asked(steps: seq<Step>): nat {
    if steps == [] then 0
    else Asked(steps[..|steps| - 1]) + if Asks(steps[|steps| - 1]) then 1 else 0
  }

  function Min(a: nat, b: nat): nat { if a < b then a else b }

  lemma DrainStep(v: View, step: Step, from: View, n: nat)
    requires !v.open && !step.StepOpen? && n <= |from.chain| < WORD
    requires v.accepted == from.accepted && v.delivered == from.delivered + from.chain[..n] && v.chain == from.chain[n..]
    ensures var w, m := Next(v, step), if Asks(step) then Min(n + 1, |from.chain|) else n;
      && !w.open && w.accepted == from.accepted
      && w.delivered == from.delivered + from.chain[..m] && w.chain == from.chain[m..]
  {
    if Asks(step) && n < |from.chain| {
      assert from.chain[..n] + [from.chain[n]] == from.chain[..n + 1];
      assert from.chain[n..][1..] == from.chain[n + 1..];
    }
  }

  /** A closed queue drains: amid any steps but an opening, those who ask get the items that were
      left, in their order, as many as there are of the one or the other; nothing is added. */
  lemma {:induction false} ClosedQueueDrains(schedule: seq<Step>, steps: seq<Step>)
    requires Exec(schedule).Some? && Exec(schedule + steps).Some?
    requires var s := Exec(schedule).value.s; !s.open && s.deinit != Finished && |s.items| < WORD
    requires forall step | step in steps :: !step.StepOpen?
    ensures var v, v' := ViewOf(Exec(schedule).value), ViewOf(Exec(schedule + steps).value);
      var n := Min(Asked(steps), |v.chain|);
      && !v'.open && v'.accepted == v.accepted
      && v'.delivered == v.delivered + v.chain[..n] && v'.chain == v.chain[n..]
    decreases |steps|
  {
    var v := ViewOf(Exec(schedule).value);
    if steps == [] {
      assert schedule + steps == schedule;
      assert v.delivered + v.chain[..0] == v.delivered;
    } else {
      var rest, step := steps[..|steps| - 1], steps[|steps| - 1];
      var before := schedule + rest;
      assert schedule + steps == before + [step] && step in steps && forall x | x in rest :: x in steps;
      LastStep(before, step);
      ClosedQueueDrains(schedule, rest);
      EveryReachableState(before);
      StepSeen(Exec(before).value, step);
      DrainStep(ViewOf(Exec(before).value), step, v, Min(Asked(rest), |v.chain|));
    }
  }

  /** The leftovers whose data is `p` and asks to be freed. */
  function Asking(items: seq<Item>, p: Ptr): set<int> {
    set i: int | 0 <= i < |items| && items[i].freeData && items[i].data == p
  }

  lemma AskingAppend(items: seq<Item>, x: Item, p: Ptr)
    ensures |Asking(items + [x], p)| == |Asking(items, p)| + if x.freeData && x.data == p then 1 else 0
  {
    var n := |items|;
    var more := if x.freeData && x.data == p then {n} else {};
    assert Asking(items + [x], p) == Asking(items, p) + more;
    assert n !in Asking(items, p);
  }

  lemma {:induction false} FreedTimes(items: seq<Item>, p: Ptr)
    ensures Times(FreedData(items), p) == if p == NULL then 0 else |Asking(items, p)|
    decreases |items|
  {
    if items == [] {
      assert Asking(items, p) == {};
    } else {
      var front, x := items[..|items| - 1], items[|items| - 1];
      assert items == front + [x];
      FreedTimes(front, p);
      FreedAppend(front, x);
      AskingAppend(front, x, p);
    }
  }

  function DataOf(x: Item): seq<Ptr> {
    if x.freeData && x.data != NULL then [x.data] else []
  }

  lemma {:induction false} FreedAppend(items: seq<Item>, x: Item)
    ensures FreedData(items + [x]) == FreedData(items) + DataOf(x)
    decreases |items|
  {
    var all := items + [x];
    if items == [] {
      assert all[1..] == [];
    } else {
      assert all[1..] == items[1..] + [x];
      FreedAppend(items[1..], x);
      assert FreedData(all) == DataOf(items[0]) + FreedData(all[1..]);
      assert FreedData(items) == DataOf(items[0]) + FreedData(items[1..]);
    }
  }

  /** The shutdown frees the data of exactly the leftovers that ask for it, each once, and no
      NULL; nothing is freed before. */
  lemma FreedExactly(schedule: seq<Step>, p: Ptr)
    requires Exec(schedule).Some?
    ensures var r := Exec(schedule).value;
      Times(r.s.freed, p) == if r.s.deinit == Finished && p != NULL then |Asking(r.leftover, p)| else 0
  {
    EveryReachableState(schedule);
    FreedTimes(Exec(schedule).value.leftover, p);
  }
}
