/**
 * The gate of the synchronous wrapper (libfreenect/wrappers/c_sync/libfreenect_sync.c): a counter
 * of pending tasks and a lock, which let API calls in between two rounds of event processing.
 * Any number of tasks and of run-loop threads interleave; the source normally has one run loop,
 * but a stop that overlaps a setup can leave two, and nothing below depends on there being one.
 */
module RunloopGate {
  import opened Options

  datatype Thread = Task(t: nat) | Loop(l: nat)

  /** A task: before `pending_runloop_tasks_inc`, waiting for the lock, holding it, before `_dec`. */
  datatype TaskPc = Idle | Pending | Inside | Leaving

  /** A run loop: in `wait_zero`, asleep in it, wanting the lock, and holding it in the last three but one. */
  datatype LoopPc = Waiting | Sleeping | WantsLock | Deciding | Processing | Closing | Ended

  datatype State = State(
    pending: int, lock: Option<Thread>, threadRunning: bool,
    tasks: map<nat, TaskPc>, loops: map<nat, LoopPc>)

  function TaskOf(s: State, t: nat): TaskPc {
    if t in s.tasks then s.tasks[t] else Idle
  }

  function LoopOf(s: State, l: nat): LoopPc {
    if l in s.loops then s.loops[l] else Ended
  }

  predicate HoldsLock(pc: LoopPc) {
    pc.Deciding? || pc.Processing? || pc.Closing?
  }

  datatype Event =
    | Inc(t: nat)
    | LockByTask(t: nat)
    | InitThread(t: nat, l: nat, ok: bool)
    | UndoInit(t: nat)
    | UnlockByTask(t: nat)
    | Dec(t: nat)
    | SyncStop
    | SeeZero(l: nat)
    | Sleep(l: nat)
    | Wake(l: nat)
    | LockByLoop(l: nat)
    | ProcessEvents(l: nat)
    | Quit(l: nat)
    | EventsDone(l: nat, ok: bool)
    | Close(l: nat)

  predicate Enabled(s: State, e: Event) {
    match e
    case Inc(t) => TaskOf(s, t).Idle?
    case LockByTask(t) => TaskOf(s, t).Pending? && s.lock.None?
    // `setup_kinect` holds the lock and finds `thread_running` clear.
    case InitThread(t, l, _) => TaskOf(s, t).Inside? && !s.threadRunning && l !in s.loops
    case UndoInit(t) => TaskOf(s, t).Inside?
    case UnlockByTask(t) => TaskOf(s, t).Inside?
    case Dec(t) => TaskOf(s, t).Leaving?
    case SyncStop => true
    case SeeZero(l) => LoopOf(s, l).Waiting? && s.pending == 0
    case Sleep(l) => LoopOf(s, l).Waiting? && s.pending != 0
    case Wake(l) => LoopOf(s, l).Sleeping?
    case LockByLoop(l) => LoopOf(s, l).WantsLock? && s.lock.None?
    case ProcessEvents(l) => LoopOf(s, l).Deciding? && s.threadRunning
    case Quit(l) => LoopOf(s, l).Deciding? && !s.threadRunning
    case EventsDone(l, _) => LoopOf(s, l).Processing?
    case Close(l) => LoopOf(s, l).Closing?
  }

  function GotoT(s: State, t: nat, pc: TaskPc): State {
    s.(tasks := s.tasks[t := pc])
  }

  function GotoL(s: State, l: nat, pc: LoopPc): State {
    s.(loops := s.loops[l := pc])
  }

  function Next(s: State, e: Event): State
    requires Enabled(s, e)
  {
    match e
    case Inc(t) => GotoT(s, t, Pending).(pending := s.pending + 1)
    case LockByTask(t) => GotoT(s, t, Inside).(lock := Some(Task(t)))
    // A failed `freenect_init` leaves the flag set without a thread.
    case InitThread(_, l, ok) =>
      (if ok then GotoL(s, l, Waiting) else s).(threadRunning := true)
    case UndoInit(_) => s.(threadRunning := false)
    case UnlockByTask(t) => GotoT(s, t, Leaving).(lock := None)
    case Dec(t) => GotoT(s, t, Idle).(pending := s.pending - 1)
    case SyncStop => s.(threadRunning := false)
    case SeeZero(l) => GotoL(s, l, WantsLock)
    case Sleep(l) => GotoL(s, l, Sleeping)
    case Wake(l) => GotoL(s, l, Waiting)
    case LockByLoop(l) => GotoL(s, l, Deciding).(lock := Some(Loop(l)))
    case ProcessEvents(l) => GotoL(s, l, Processing)
    case Quit(l) => GotoL(s, l, Closing)
    case EventsDone(l, ok) => if ok then GotoL(s, l, Waiting).(lock := None) else GotoL(s, l, Closing)
    case Close(l) => GotoL(s, l, Ended).(lock := None)
  }

  function Init(): State {
    State(0, None, false, map[], map[])
  }

  /** The tasks between their `inc` and their `dec`. */
  function Between(s: State): set<nat> {
    set t | t in s.tasks && !s.tasks[t].Idle?
  }

  ghost predicate LockHeld(s: State) {
    && (forall t {:trigger TaskOf(s, t)} :: s.lock == Some(Task(t)) <==> TaskOf(s, t).Inside?)
    && (forall l {:trigger LoopOf(s, l)} :: s.lock == Some(Loop(l)) <==> HoldsLock(LoopOf(s, l)))
  }

  ghost predicate Inv(s: State) {
    s.pending == |Between(s)| && LockHeld(s)
  }

  /** Moving task `t` to `pc`. */
  lemma TaskMoves(s: State, s': State, t: nat, pc: TaskPc)
    requires s'.tasks == s.tasks[t := pc]
    ensures Between(s') == if pc.Idle? then Between(s) - {t} else Between(s) + {t}
    ensures t in Between(s) <==> !TaskOf(s, t).Idle?
  {
  }

  lemma PendingKept(s: State, e: Event)
    requires Enabled(s, e) && s.pending == |Between(s)|
    ensures Next(s, e).pending == |Between(Next(s, e))|
  {
    var s' := Next(s, e);
    match e {
      case Inc(t) => TaskMoves(s, s', t, Pending);
      case LockByTask(t) =>
        TaskMoves(s, s', t, Inside);
        assert Between(s') == Between(s);
      case UnlockByTask(t) =>
        TaskMoves(s, s', t, Leaving);
        assert Between(s') == Between(s);
      case Dec(t) => TaskMoves(s, s', t, Idle);
      case _ => assert s'.tasks == s.tasks;
    }
  }

  lemma NextKeeps(s: State, e: Event)
    requires Inv(s) && Enabled(s, e)
    ensures Inv(Next(s, e))
  {
    PendingKept(s, e);
    var s' := Next(s, e);
    forall t {:trigger TaskOf(s', t)} ensures s'.lock == Some(Task(t)) <==> TaskOf(s', t).Inside? {
      var before := TaskOf(s, t);
    }
    forall l {:trigger LoopOf(s', l)} ensures s'.lock == Some(Loop(l)) <==> HoldsLock(LoopOf(s', l)) {
      var before := LoopOf(s, l);
    }
  }

  // ---------------------------------------------------------------- runs

  /** The state after the first `i` events of an interleaving; an event that is not enabled is skipped. */
  function StateAt(es: seq<Event>, i: nat): State
    requires i <= |es|
  {
    if i == 0 then Init()
    else
      var s := StateAt(es, i - 1);
      if Enabled(s, es[i - 1]) then Next(s, es[i - 1]) else s
  }

  predicate Happens(es: seq<Event>, i: nat)
    requires i < |es|
  {
    Enabled(StateAt(es, i), es[i])
  }

  lemma {:induction false} RunInv(es: seq<Event>, i: nat)
    requires i <= |es|
    ensures Inv(StateAt(es, i))
  {
    if i > 0 {
      RunInv(es, i - 1);
      if Happens(es, i - 1) {
        NextKeeps(StateAt(es, i - 1), es[i - 1]);
      }
    }
  }

  /**
   * In every reachable state the counter is the number of tasks between `inc` and `dec` (so the
   * source's assertions that it is not negative hold), and while a task is inside, no run loop
   * processes events and no other task is inside.
   */
  lemma Exclusion(es: seq<Event>, i: nat, t: nat)
    requires i <= |es|
    ensures var s := StateAt(es, i);
      && s.pending == |Between(s)|
      && (TaskOf(s, t).Inside? ==>
            && (forall l :: !LoopOf(s, l).Processing?)
            && (forall u :: TaskOf(s, u).Inside? ==> u == t))
  {
    RunInv(es, i);
  }

  /** How often loop `l` starts processing events in steps `i .. j`. */
  function Starts(es: seq<Event>, i: nat, j: nat, l: nat): nat
    requires i <= j <= |es|
  {
    if i == j then 0
    else Starts(es, i, j - 1, l) + (if es[j - 1] == ProcessEvents(l) && Happens(es, j - 1) then 1 else 0)
  }

  /** Between steps `i` and `j` task `t` does not take its `dec`. */
  predicate NotLeft(es: seq<Event>, i: nat, j: nat, t: nat)
    requires i <= j <= |es|
  {
    forall k :: i <= k < j ==> es[k] != Dec(t)
  }

  /** A task that has incremented the counter keeps it positive until it decrements it. */
  lemma {:induction false} StaysPending(es: seq<Event>, i: nat, j: nat, t: nat)
    requires i < j <= |es| && es[i] == Inc(t) && Happens(es, i) && NotLeft(es, i, j, t)
    ensures !TaskOf(StateAt(es, j), t).Idle?
    ensures StateAt(es, j).pending > 0
  {
    if j > i + 1 {
      StaysPending(es, i, j - 1, t);
    }
    RunInv(es, j);
    assert t in Between(StateAt(es, j));
  }

  /**
   * Bounded bypass: from a task's `inc` until its `dec`, and so in particular until it gets the
   * lock, a run loop starts `freenect_process_events` at most once; after that start it is
   * neither past its wait nor holding the lock for another.
   */
  lemma {:induction false} BoundedBypass(es: seq<Event>, i: nat, j: nat, t: nat, l: nat)
    requires i < j <= |es| && es[i] == Inc(t) && Happens(es, i) && NotLeft(es, i, j, t)
    ensures Starts(es, i, j, l) <= 1
    ensures Starts(es, i, j, l) == 1 ==>
              var pc := LoopOf(StateAt(es, j), l); !pc.WantsLock? && !pc.Deciding?
  {
    if j > i + 1 {
      BoundedBypass(es, i, j - 1, t, l);
      StaysPending(es, i, j - 1, t);
      var s := StateAt(es, j - 1);
      if Happens(es, j - 1) {
        NoNewRound(s, es[j - 1], l);
      }
    }
  }

  /** While tasks are pending, a loop that is not past its wait stays so, and a start puts it there. */
  lemma NoNewRound(s: State, e: Event, l: nat)
    requires Enabled(s, e) && s.pending > 0
    ensures var pc, pc' := LoopOf(s, l), LoopOf(Next(s, e), l);
      && (e == ProcessEvents(l) ==> pc.Deciding? && pc'.Processing?)
      && (!pc.WantsLock? && !pc.Deciding? ==> !pc'.WantsLock? && !pc'.Deciding?)
  {
  }

  /** A run in which the loop sees zero just before a second task's `inc`. */
  function RaceEvent(i: nat): Event
    requires i < 9
  {
    match i
    case 0 => Inc(0)
    case 1 => LockByTask(0)
    case 2 => InitThread(0, 0, true)
    case 3 => UnlockByTask(0)
    case 4 => Dec(0)
    case 5 => SeeZero(0)
    case 6 => Inc(1)
    case 7 => LockByLoop(0)
    case _ => ProcessEvents(0)
  }

  function RaceState(i: nat): State
    requires i < 9
  {
    match i
    case 0 => Init()
    case 1 => State(1, None, false, map[0 := Pending], map[])
    case 2 => State(1, Some(Task(0)), false, map[0 := Inside], map[])
    case 3 => State(1, Some(Task(0)), true, map[0 := Inside], map[0 := Waiting])
    case 4 => State(1, None, true, map[0 := Leaving], map[0 := Waiting])
    case 5 => State(0, None, true, map[0 := Idle], map[0 := Waiting])
    case 6 => State(0, None, true, map[0 := Idle], map[0 := WantsLock])
    case 7 => State(1, None, true, map[0 := Idle, 1 := Pending], map[0 := WantsLock])
    case _ => State(1, Some(Loop(0)), true, map[0 := Idle, 1 := Pending], map[0 := Deciding])
  }

  predicate IsRace(es: seq<Event>) {
    |es| == 9 && forall i :: 0 <= i < 9 ==> es[i] == RaceEvent(i)
  }

  lemma RaceStep(i: nat)
    requires i < 9
    ensures Enabled(RaceState(i), RaceEvent(i))
    ensures i < 8 ==> Next(RaceState(i), RaceEvent(i)) == RaceState(i + 1)
  {
  }

  /** Every step of the run happens. */
  lemma {:induction false} RaceRuns(es: seq<Event>, i: nat)
    requires IsRace(es) && i < 9
    ensures StateAt(es, i) == RaceState(i) && Happens(es, i)
  {
    RaceStep(i);
    if i > 0 {
      RaceRuns(es, i - 1);
      RaceStep(i - 1);
    }
  }

  lemma StartsStep(es: seq<Event>, i: nat, j: nat, l: nat)
    requires i <= j < |es|
    ensures Starts(es, i, i, l) == 0
    ensures Starts(es, i, j + 1, l) ==
            Starts(es, i, j, l) + if es[j] == ProcessEvents(l) && Happens(es, j) then 1 else 0
  {
  }

  /** The one start is possible. */
  lemma BypassHappens(es: seq<Event>)
    requires IsRace(es)
    ensures es[6] == Inc(1) && Happens(es, 6) && NotLeft(es, 6, 9, 1) && Starts(es, 6, 9, 0) == 1
  {
    RaceRuns(es, 6);
    RaceRuns(es, 8);
    StartsStep(es, 6, 6, 0);
    StartsStep(es, 6, 7, 0);
    StartsStep(es, 6, 8, 0);
  }
}
