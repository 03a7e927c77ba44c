/** The blocking queue of a/to_do/queue.c as a transition system.  A step is one region of
    code that holds the mutex without a break: up to the unlock, or up to a condition wait,
    which releases the mutex and sleeps at once, or from a wake-up on.

    A thread inside pthread_cond_wait is `asleep` until a signal chooses it, then `woken` until
    it gets the mutex again.  A resume of a thread that is still asleep is a spurious wake-up. */
module QueueSpec {
  import opened Words
  import opened Dictionary

  /** Thread names.  There are fewer of them than an `unsigned int` can count. */
  type Tid = t: int | 0 <= t < 0xFFFF_FFFF

  datatype Item = Item(data: Ptr, freeData: bool)

  /** Where the one call of q_deinit is. */
  datatype Deinit = NotCalled | Sleeping | Signalled | Finished

  datatype State = State(
    items: seq<Item>,  // the chain from head to tail
    num: nat, waiting: nat, watching: nat, open: bool,
    asleep: set<Tid>, woken: set<Tid>, deinit: Deinit,
    freed: seq<Ptr>)  // data that q_deinit released

  const FRESH := State([], 0, 0, 0, true, {}, {}, NotCalled, [])

  function Inc(n: nat): nat { (n + 1) % WORD }
  function Dec(n: nat): nat { (n - 1) % WORD }

  // ----- Condition variables -----

  /** A signal wakes at least one sleeper if there is any. */
  predicate CanWake(s: State, wake: set<Tid>) {
    wake <= s.asleep && (s.asleep != {} ==> wake != {})
  }

  function Wake(s: State, wake: set<Tid>): State {
    s.(asleep := s.asleep - wake, woken := s.woken + wake)
  }

  /** `if(q->waiting) signal(waiting_cond)` */
  function SignalWaiting(s: State, wake: set<Tid>): State {
    if s.waiting != 0 then Wake(s, wake) else s
  }

  /** `if(q->watching) broadcast(watching_cond)` */
  function BroadcastWatching(s: State): State {
    if s.watching != 0 && s.deinit == Sleeping then s.(deinit := Signalled) else s
  }

  // ----- The regions -----

  /** q_enque: the new state and whether the queue took the item. */
  function Enque(s: State, item: Item, wake: set<Tid>): (State, bool) {
    if !s.open then (s, false)
    else
      var linked := s.(items := s.items + [item], num := Inc(s.num));
      (SignalWaiting(BroadcastWatching(linked), wake), true)
  }

  /** A dequeuer goes back to sleep, or returns with an item or with nothing. */
  datatype Outcome = Waits | Returns(item: Option<Item>)

  /** q_dequeue from the test of its loop on. */
  function Dequeue(s: State, t: Tid): (State, Outcome)
    requires s.num != 0 ==> s.items != []
  {
    if s.open && s.num == 0 then
      (s.(waiting := Inc(s.waiting), asleep := s.asleep + {t}), Waits)
    else if s.num == 0 then
      (BroadcastWatching(s), Returns(None))
    else
      (BroadcastWatching(s.(items := s.items[1..], num := Dec(s.num))), Returns(Some(s.items[0])))
  }

  /** Coming out of the condition wait. */
  function Awake(s: State, t: Tid): State {
    s.(waiting := Dec(s.waiting), asleep := s.asleep - {t}, woken := s.woken - {t})
  }

  /** del_q_item on every leftover. */
  function FreedData(items: seq<Item>): seq<Ptr> {
    if items == [] then []
    else (if items[0].freeData && items[0].data != NULL then [items[0].data] else []) + FreedData(items[1..])
  }

  /** q_deinit from the test of its loop on. */
  function DeinitLoop(s: State): State {
    if s.waiting != 0 || s.watching != 0 then
      s.(watching := Inc(s.watching), deinit := Sleeping)
    else
      s.(items := [], freed := s.freed + FreedData(s.items), deinit := Finished)
  }

  /** q_deinit up to its loop: close, and broadcast to everyone. */
  function DeinitStart(s: State): State {
    var closed := s.(open := false);
    var told := if s.waiting != 0 then Wake(closed, s.asleep) else closed;
    DeinitLoop(BroadcastWatching(told))
  }

  function DeinitResume(s: State): State {
    DeinitLoop(s.(watching := Dec(s.watching)))
  }

  /** q_close and q_open differ in the flag only. */
  function SetOpen(s: State, open: bool, wake: set<Tid>): State {
    SignalWaiting(BroadcastWatching(s.(open := open)), wake)
  }

  // ----- Steps and runs -----

  datatype Step =
    | StepEnque(item: Item, wake: set<Tid>)
    | StepDequeue(t: Tid)
    | StepResume(t: Tid)
    | StepDeinit
    | StepDeinitResume
    | StepClose(wake: set<Tid>)
    | StepOpen(wake: set<Tid>)

  predicate Enabled(s: State, step: Step) {
    && s.deinit != Finished
    && match step
       case StepEnque(_, wake) => CanWake(s, wake)
       case StepDequeue(t) => t !in s.asleep + s.woken
       case StepResume(t) => t in s.asleep + s.woken
       case StepDeinit => s.deinit == NotCalled
       case StepDeinitResume => s.deinit != NotCalled
       case StepClose(wake) => CanWake(s, wake)
       case StepOpen(wake) => CanWake(s, wake)
  }

  /** What has gone in and come out; `reopened` says that q_open was called after q_deinit. */
  datatype Run = Run(
    s: State, accepted: seq<Item>, delivered: seq<Item>, leftover: seq<Item>, reopened: bool)

  const START := Run(FRESH, [], [], [], false)

  function Deliver(r: Run, s: State, o: Outcome): Run {
    r.(s := s, delivered := r.delivered + (if o.Returns? && o.item.Some? then [o.item.value] else []))
  }

  function Finish(r: Run, s: State): Run {
    r.(s := s, leftover := if s.deinit == Finished then r.s.items else r.leftover)
  }

  function Apply(r: Run, step: Step): Run
    requires Enabled(r.s, step)
    requires r.s.num != 0 ==> r.s.items != []
  {
    match step
    case StepEnque(item, wake) =>
      var (s, ok) := Enque(r.s, item, wake);
      r.(s := s, accepted := if ok then r.accepted + [item] else r.accepted)
    case StepDequeue(t) =>
      var (s, o) := Dequeue(r.s, t);
      Deliver(r, s, o)
    case StepResume(t) =>
      var (s, o) := Dequeue(Awake(r.s, t), t);
      Deliver(r, s, o)
    case StepDeinit => Finish(r, DeinitStart(r.s))
    case StepDeinitResume => Finish(r, DeinitResume(r.s))
    case StepClose(wake) => r.(s := SetOpen(r.s, false, wake))
    case StepOpen(wake) => r.(s := SetOpen(r.s, true, wake), reopened := r.reopened || r.s.deinit != NotCalled)
  }

  /** The run of a schedule; None when some step is not possible when its turn comes, or takes
      an item from a NULL head. */
  function Exec(schedule: seq<Step>): Option<Run> {
    if schedule == [] then Some(START)
    else
      match Exec(schedule[..|schedule| - 1])
      case None => None
      case Some(r) =>
        var step := schedule[|schedule| - 1];
        if Enabled(r.s, step) && (r.s.num != 0 ==> r.s.items != []) then Some(Apply(r, step)) else None
  }
}
