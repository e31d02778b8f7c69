/**
 * The triple buffer between the driver and the callers of the synchronous wrapper
 * (libfreenect/wrappers/c_sync/libfreenect_sync.c), as atomic steps of several threads: the
 * run-loop thread that fills buffers and runs the producer callback, and any number of callers
 * that fetch frames or change the format. Between any two steps another thread may run.
 */
module SyncRing {
  import opened Options

  // Addresses of buffers; NULL is 0.
  type Ptr = nat
  const NULL: Ptr := 0

  /** What a buffer holds: something unfinished, or frame number `id` with its timestamp. */
  datatype Content = Partial | Frame(id: nat, stamp: int)

  /** `buffer_ring_t`. A mode stands for a format and a resolution; NO_MODE for -1. */
  datatype Ring<P> = Ring(b0: P, b1: P, b2: P, timestamp: int, valid: bool, mode: int)

  const NO_MODE := -1

  /** The part of `packet_stream` that `stream_setbuf` and `stream_init` decide. */
  datatype Stream = Stream(running: bool, usrBuf: Ptr, procBuf: Ptr)

  // The critical section of `producer_cb_inner`, and the critical section of `sync_get`, as what
  // they do to the ring.
  function Publish<P>(r: Ring<P>, stamp: int): Ring<P> {
    r.(b1 := r.b2, b2 := r.b1, timestamp := stamp, valid := true)
  }

  function Take<P>(r: Ring<P>): Ring<P> {
    r.(b0 := r.b1, b1 := r.b0, valid := false)
  }

  function Freed<P>(null_: P): Ring<P> {
    Ring(null_, null_, null_, 0, false, NO_MODE)
  }

  /** `stream_setbuf`, for a stream started with a user buffer. */
  function SetBuffer(s: Stream, buf: Ptr): Stream {
    if s.running then s.(usrBuf := buf, procBuf := buf) else s.(usrBuf := buf)
  }

  datatype Thread = Driver | Caller(id: nat)

  /** Where the run-loop thread is: outside `freenect_process_events`, inside it, or in the callback. */
  datatype DriverPc =
    | Away
    | Polling
    | Called(data: Ptr, stamp: int)
    | Locked(data: Ptr, stamp: int)
    | Swapped(temp: Ptr, stamp: int)
    | Targeted(stamp: int)
    | Published

  /** Where a caller is: in `sync_get` or in `setup_kinect` and the format change it makes. */
  datatype CallerPc =
    | Idle
    | WantsRing
    | Checking
    | Sleeping
    | Took(data: Ptr)
    | Cleared(data: Ptr, stamp: int)
    | WantsLoop(mode: int)
    | HasLoop(mode: int)
    | Deciding(mode: int)
    | Stopped(mode: int)
    | FreedRing(mode: int)
    | Allocated(mode: int)
    | Aimed(mode: int)
    | Done
    | Leaving

  predicate HoldsRing(pc: CallerPc) {
    pc.Checking? || pc.Took? || pc.Cleared? || pc.Deciding? || pc.Stopped? || pc.FreedRing? ||
    pc.Allocated? || pc.Aimed? || pc.Done?
  }

  predicate HoldsLoop(pc: CallerPc) {
    pc.HasLoop? || pc.Deciding? || pc.Stopped? || pc.FreedRing? || pc.Allocated? || pc.Aimed? ||
    pc.Done? || pc.Leaving?
  }

  predicate DriverHoldsRing(pc: DriverPc) {
    pc.Locked? || pc.Swapped? || pc.Targeted? || pc.Published?
  }

  /**
   * The shared state. `heap` is the next address `malloc` returns and `contents` what each buffer
   * holds. The last three fields record the run: how many frames the driver completed, the number
   * of the newest one its callback published, and the last delivery of the present ring.
   */
  datatype State = State(
    ring: Ring<Ptr>, stream: Stream, ringLock: Option<Thread>, loopLock: Option<Thread>,
    driver: DriverPc, callers: map<nat, CallerPc>, heap: Ptr, contents: map<Ptr, Content>,
    completed: nat, published: nat, delivered: nat, front: Option<Ptr>)

  function Pc(s: State, u: nat): CallerPc {
    if u in s.callers then s.callers[u] else Idle
  }

  function At(s: State, p: Ptr): Content {
    if p in s.contents then s.contents[p] else Partial
  }

  function Init(): State {
    State(Freed(NULL), Stream(false, NULL, NULL), None, None, Away, map[], 1, map[], 0, 0, 0, None)
  }

  datatype Event =
    | EnterEvents
    | LeaveEvents
    | Write
    | Complete(stamp: int)
    | LockInCallback
    | SwapInCallback
    | SetBufferInCallback
    | PublishInCallback
    | UnlockInCallback
    | CallGet(u: nat)
    | LockInGet(u: nat)
    | SleepInGet(u: nat)
    | WakeInGet(u: nat)
    | TakeInGet(u: nat)
    | ClearInGet(u: nat)
    | ReturnFromGet(u: nat)
    | CallSetup(u: nat, mode: int)
    | LockLoop(u: nat)
    | LockInSetup(u: nat)
    | KeepMode(u: nat)
    | StopStream(u: nat)
    | FreeRing(u: nat)
    | RejectMode(u: nat)
    | AllocRing(u: nat)
    | SetBufferInSetup(u: nat)
    | StartStream(u: nat)
    | FailStart(u: nat)
    | UnlockRing(u: nat)
    | UnlockLoop(u: nat)

  predicate Enabled(s: State, e: Event) {
    match e
    case EnterEvents => s.driver.Away? && s.loopLock.None?
    case LeaveEvents => s.driver.Polling?
    case Write => s.driver.Polling? && s.stream.running
    case Complete(_) => s.driver.Polling? && s.stream.running
    case LockInCallback => s.driver.Called? && s.ringLock.None?
    case SwapInCallback => s.driver.Locked?
    case SetBufferInCallback => s.driver.Swapped?
    case PublishInCallback => s.driver.Targeted?
    case UnlockInCallback => s.driver.Published?
    case CallGet(u) => Pc(s, u).Idle?
    case LockInGet(u) => Pc(s, u).WantsRing? && s.ringLock.None?
    case SleepInGet(u) => Pc(s, u).Checking? && !s.ring.valid
    case WakeInGet(u) => Pc(s, u).Sleeping?
    case TakeInGet(u) => Pc(s, u).Checking? && s.ring.valid
    case ClearInGet(u) => Pc(s, u).Took?
    case ReturnFromGet(u) => Pc(s, u).Cleared?
    case CallSetup(u, mode) => Pc(s, u).Idle?
    case LockLoop(u) => Pc(s, u).WantsLoop? && s.loopLock.None?
    case LockInSetup(u) => Pc(s, u).HasLoop? && s.ringLock.None?
    case KeepMode(u) => Pc(s, u).Deciding? && s.ring.mode == Pc(s, u).mode
    case StopStream(u) => Pc(s, u).Deciding? && s.ring.mode != Pc(s, u).mode
    case FreeRing(u) => Pc(s, u).Stopped?
    case RejectMode(u) => Pc(s, u).FreedRing?
    case AllocRing(u) => Pc(s, u).FreedRing?
    case SetBufferInSetup(u) => Pc(s, u).Allocated?
    case StartStream(u) => Pc(s, u).Aimed?
    case FailStart(u) => Pc(s, u).Aimed?
    case UnlockRing(u) => Pc(s, u).Done?
    case UnlockLoop(u) => Pc(s, u).Leaving?
  }

  function Goto(s: State, u: nat, pc: CallerPc): State {
    s.(callers := s.callers[u := pc])
  }

  /** The steps of the run-loop thread. */
  function DriverNext(s: State, e: Event): State
    requires Enabled(s, e)
  {
    match e
    case EnterEvents => s.(driver := Polling, loopLock := Some(Driver))
    case LeaveEvents => s.(driver := Away, loopLock := None)
    case Write => s.(contents := s.contents[s.stream.procBuf := Partial])
    case Complete(stamp) =>
      s.(contents := s.contents[s.stream.procBuf := Frame(s.completed + 1, stamp)],
         completed := s.completed + 1, driver := Called(s.stream.procBuf, stamp))
    case LockInCallback =>
      s.(driver := Locked(s.driver.data, s.driver.stamp), ringLock := Some(Driver))
    case SwapInCallback =>
      s.(driver := Swapped(s.ring.b1, s.driver.stamp), ring := s.ring.(b1 := s.ring.b2, b2 := s.ring.b1))
    case SetBufferInCallback =>
      s.(driver := Targeted(s.driver.stamp), stream := SetBuffer(s.stream, s.driver.temp))
    case PublishInCallback =>
      s.(driver := Published, ring := s.ring.(timestamp := s.driver.stamp, valid := true),
         published := s.completed)
    case UnlockInCallback => s.(driver := Polling, ringLock := None)
    case _ => s
  }

  /** The steps of a caller in `sync_get`; waiting on the condition releases the lock. */
  function GetNext(s: State, e: Event): State
    requires Enabled(s, e)
  {
    match e
    case CallGet(u) => Goto(s, u, WantsRing)
    case LockInGet(u) => Goto(s, u, Checking).(ringLock := Some(Caller(u)))
    case SleepInGet(u) => Goto(s, u, Sleeping).(ringLock := None)
    case WakeInGet(u) => Goto(s, u, WantsRing)
    case TakeInGet(u) =>
      Goto(s, u, Took(s.ring.b1)).(ring := s.ring.(b0 := s.ring.b1, b1 := s.ring.b0),
                                   delivered := s.published, front := Some(s.ring.b1))
    case ClearInGet(u) =>
      Goto(s, u, Cleared(Pc(s, u).data, s.ring.timestamp)).(ring := s.ring.(valid := false))
    case ReturnFromGet(u) => Goto(s, u, Idle).(ringLock := None)
    case _ => s
  }

  /** The steps of a caller in `setup_kinect` and `change_video_format` or `change_depth_format`. */
  function SetupNext(s: State, e: Event): State
    requires Enabled(s, e)
  {
    match e
    case CallSetup(u, mode) => Goto(s, u, WantsLoop(mode))
    case LockLoop(u) => Goto(s, u, HasLoop(Pc(s, u).mode)).(loopLock := Some(Caller(u)))
    case LockInSetup(u) => Goto(s, u, Deciding(Pc(s, u).mode)).(ringLock := Some(Caller(u)))
    case KeepMode(u) => Goto(s, u, Done)
    case StopStream(u) => Goto(s, u, Stopped(Pc(s, u).mode)).(stream := s.stream.(running := false))
    case FreeRing(u) => Goto(s, u, FreedRing(Pc(s, u).mode)).(ring := Freed(NULL), front := None)
    case RejectMode(u) => Goto(s, u, Done)
    case AllocRing(u) =>
      Goto(s, u, Allocated(Pc(s, u).mode)).(
        ring := Ring(s.heap, s.heap + 1, s.heap + 2, 0, false, Pc(s, u).mode), heap := s.heap + 3)
    case SetBufferInSetup(u) => Goto(s, u, Aimed(Pc(s, u).mode)).(stream := SetBuffer(s.stream, s.ring.b2))
    case StartStream(u) =>
      Goto(s, u, Done).(stream := s.stream.(running := true, procBuf := s.stream.usrBuf))
    // The driver has set up the stream's buffers by then, and the result is ignored.
    case FailStart(u) => Goto(s, u, Done).(stream := s.stream.(procBuf := s.stream.usrBuf))
    case UnlockRing(u) => Goto(s, u, Leaving).(ringLock := None)
    case UnlockLoop(u) => Goto(s, u, Idle).(loopLock := None)
    case _ => s
  }

  predicate IsDriver(e: Event) {
    e.EnterEvents? || e.LeaveEvents? || e.Write? || e.Complete? || e.LockInCallback? ||
    e.SwapInCallback? || e.SetBufferInCallback? || e.PublishInCallback? || e.UnlockInCallback?
  }

  predicate IsGet(e: Event) {
    e.CallGet? || e.LockInGet? || e.SleepInGet? || e.WakeInGet? || e.TakeInGet? || e.ClearInGet? ||
    e.ReturnFromGet?
  }

  function Next(s: State, e: Event): State
    requires Enabled(s, e)
  {
    if IsDriver(e) then DriverNext(s, e) else if IsGet(e) then GetNext(s, e) else SetupNext(s, e)
  }

  /** Each lock is held by the thread whose program counter is in its critical section, and by no other. */
  ghost predicate LocksHeld(s: State) {
    && (s.ringLock == Some(Driver) <==> DriverHoldsRing(s.driver))
    && (s.loopLock == Some(Driver) <==> !s.driver.Away?)
    && (forall u {:trigger Pc(s, u)} :: s.ringLock == Some(Caller(u)) <==> HoldsRing(Pc(s, u)))
    && (forall u {:trigger Pc(s, u)} :: s.loopLock == Some(Caller(u)) <==> HoldsLoop(Pc(s, u)))
  }

  predicate Alloced(r: Ring<Ptr>) {
    r.b2 != NULL
  }

  /** The three slots hold three different buffers, or the ring is empty. */
  predicate Permutation(s: State) {
    var r := s.ring;
    if Alloced(r) then
      r.b0 != NULL && r.b1 != NULL && r.b0 != r.b1 && r.b1 != r.b2 && r.b0 != r.b2 &&
      r.b0 < s.heap && r.b1 < s.heap && r.b2 < s.heap
    else
      r == Freed(NULL)
  }

  /** A running stream fills slot 2, except between the swap and `set_buffer` of the callback. */
  predicate OnTarget(s: State) {
    && (s.stream.running ==> Alloced(s.ring))
    && (s.stream.running ==> s.stream.procBuf == if s.driver.Swapped? then s.ring.b1 else s.ring.b2)
    && (!s.driver.Away? && !s.driver.Polling? ==> s.stream.running)
    && (s.driver.Called? || s.driver.Locked? ==> s.driver.data == s.stream.procBuf)
    && (s.driver.Swapped? ==> s.driver.temp == s.ring.b2)
  }

  ghost predicate Callers(s: State) {
    forall u {:trigger Pc(s, u)} :: CallerOk(s, Pc(s, u))
  }

  /** What a caller knows at each point of its critical section. */
  predicate CallerOk(s: State, pc: CallerPc) {
    && (pc.Took? || pc.Cleared? ==> s.front == Some(pc.data))
    && (pc.Took? ==> s.ring.valid && At(s, s.ring.b0) == Frame(s.published, s.ring.timestamp))
    && (pc.Cleared? ==> !s.ring.valid && At(s, pc.data) == Frame(s.published, pc.stamp) && s.delivered == s.published)
    && (pc.Stopped? || pc.FreedRing? || pc.Allocated? || pc.Aimed? ==> !s.stream.running)
    && (pc.FreedRing? ==> s.ring == Freed(NULL))
    && (pc.Allocated? || pc.Aimed? ==> Alloced(s.ring))
    && (pc.Aimed? ==> s.stream.usrBuf == s.ring.b2)
  }

  /** The holder of the ring lock took a frame and has not cleared `valid` yet. */
  predicate Taking(s: State) {
    s.ringLock.Some? && s.ringLock.value.Caller? && Pc(s, s.ringLock.value.id).Took?
  }

  /** Which slots hold finished frames. */
  ghost predicate Finished(s: State) {
    && s.delivered <= s.published <= s.completed <= s.published + 1
    && (s.driver.Called? || s.driver.Locked? ==>
          At(s, s.driver.data) == Frame(s.completed, s.driver.stamp) && s.published < s.completed)
    && (s.driver.Swapped? || s.driver.Targeted? ==>
          At(s, s.ring.b1) == Frame(s.completed, s.driver.stamp) && s.published < s.completed)
    && (s.driver.Away? || s.driver.Polling? || s.driver.Published? ==> s.published == s.completed)
    && (s.ring.valid && !s.driver.Swapped? && !s.driver.Targeted? && !Taking(s) ==>
          At(s, s.ring.b1) == Frame(s.published, s.ring.timestamp) && s.delivered < s.published)
    && (s.ring.valid ==> Alloced(s.ring))
    && (s.front.Some? ==> Alloced(s.ring) && s.front.value == s.ring.b0 && At(s, s.ring.b0).Frame? &&
                          At(s, s.ring.b0).id == s.delivered)
  }

  ghost predicate Inv(s: State) {
    s.heap > 0 && LocksHeld(s) && Permutation(s) && OnTarget(s) && Callers(s) && Finished(s)
  }

  lemma InitInv()
    ensures Inv(Init())
  {
  }

  lemma DriverKeeps(s: State, e: Event)
    requires Inv(s) && Enabled(s, e) && IsDriver(e)
    ensures Inv(DriverNext(s, e))
  {
    var s' := DriverNext(s, e);
    assert forall u {:trigger Pc(s', u)} :: Pc(s', u) == Pc(s, u);
  }

  lemma GetKeepsLocks(s: State, e: Event)
    requires LocksHeld(s) && Enabled(s, e) && IsGet(e)
    ensures LocksHeld(GetNext(s, e))
  {
    var s' := GetNext(s, e);
    assert forall u {:trigger Pc(s', u)} :: u != e.u ==> Pc(s', u) == Pc(s, u);
  }

  lemma GetKeepsCallers(s: State, e: Event)
    requires Inv(s) && Enabled(s, e) && IsGet(e)
    ensures Callers(GetNext(s, e))
  {
    var s' := GetNext(s, e);
    assert CallerOk(s, Pc(s, e.u));
    assert CallerOk(s', Pc(s', e.u));
    forall u {:trigger Pc(s', u)} | u != e.u ensures CallerOk(s', Pc(s', u)) {
      assert CallerOk(s, Pc(s, u));
    }
  }

  lemma GetKeeps(s: State, e: Event)
    requires Inv(s) && Enabled(s, e) && IsGet(e)
    ensures Inv(GetNext(s, e))
  {
    hide CallerOk;
    GetKeepsLocks(s, e);
    GetKeepsCallers(s, e);
    assert CallerOk(s, Pc(s, e.u));
  }

  lemma SetupKeepsLocks(s: State, e: Event)
    requires LocksHeld(s) && Enabled(s, e) && !IsDriver(e) && !IsGet(e)
    ensures LocksHeld(SetupNext(s, e))
  {
    var s' := SetupNext(s, e);
    assert forall u {:trigger Pc(s', u)} :: u != e.u ==> Pc(s', u) == Pc(s, u);
  }

  lemma SetupKeepsCallers(s: State, e: Event)
    requires Inv(s) && Enabled(s, e) && !IsDriver(e) && !IsGet(e)
    ensures Callers(SetupNext(s, e))
  {
    hide IsGet;
    var s' := SetupNext(s, e);
    assert CallerOk(s, Pc(s, e.u));
    assert CallerOk(s', Pc(s', e.u));
    forall u {:trigger Pc(s', u)} | u != e.u ensures CallerOk(s', Pc(s', u)) {
      assert CallerOk(s, Pc(s, u));
    }
  }

  lemma SetupKeeps(s: State, e: Event)
    requires Inv(s) && Enabled(s, e) && !IsDriver(e) && !IsGet(e)
    ensures Inv(SetupNext(s, e))
  {
    hide IsGet;
    SetupKeepsLocks(s, e);
    SetupKeepsCallers(s, e);
    assert CallerOk(s, Pc(s, e.u));
  }

  lemma NextKeeps(s: State, e: Event)
    requires Inv(s) && Enabled(s, e)
    ensures Inv(Next(s, e))
  {
    if IsDriver(e) {
      DriverKeeps(s, e);
    } else if IsGet(e) {
      GetKeeps(s, e);
    } else {
      SetupKeeps(s, e);
    }
  }

  // ---------------------------------------------------------------- runs

  /** The state after the first `i` events of an interleaving; an event that is not enabled is skipped. */
  function StateAt(es: seq<Event>, i: nat): State
    requires i <= |es|
  {
    if i == 0 then Init()
    else
      var s := StateAt(es, i - 1);
      if Enabled(s, es[i - 1]) then Next(s, es[i - 1]) else s
  }

  /** Event `i` is really taken. */
  predicate Happens(es: seq<Event>, i: nat)
    requires i < |es|
  {
    Enabled(StateAt(es, i), es[i])
  }

  lemma {:induction false} RunInv(es: seq<Event>, i: nat)
    requires i <= |es|
    ensures Inv(StateAt(es, i))
  {
    if i == 0 {
      InitInv();
    } else {
      RunInv(es, i - 1);
      if Happens(es, i - 1) {
        NextKeeps(StateAt(es, i - 1), es[i - 1]);
      }
    }
  }

  /**
   * Safety in every reachable state: the callback's assertion holds, the slots are a permutation
   * of three buffers, outside the callback's own critical section a running stream fills slot 2,
   * and the buffer handed out last is not the driver's target and still holds the frame it held.
   */
  lemma Safety(es: seq<Event>, i: nat)
    requires i <= |es|
    ensures var s := StateAt(es, i);
      && (s.driver.Locked? ==> s.driver.data == s.ring.b2)
      && (Alloced(s.ring) ==> |{s.ring.b0, s.ring.b1, s.ring.b2}| == 3)
      && (s.stream.running && s.ringLock != Some(Driver) ==> s.stream.procBuf == s.ring.b2)
      && (s.front.Some? && s.stream.running ==> s.stream.procBuf != s.front.value)
      && (s.front.Some? ==> At(s, s.front.value).Frame? && At(s, s.front.value).id == s.delivered)
  {
    RunInv(es, i);
  }

  /** Only freeing and allocating change which buffers the ring consists of. */
  lemma SameBuffers(s: State, e: Event)
    requires Enabled(s, e) && !e.FreeRing? && !e.AllocRing?
    ensures var r, r' := s.ring, Next(s, e).ring;
      multiset{r'.b0, r'.b1, r'.b2} == multiset{r.b0, r.b1, r.b2}
  {
  }

  /** The buffer handed out last keeps its contents until the next frame is taken or the ring is freed. */
  lemma HeldBuffer(s: State, e: Event)
    requires Inv(s) && Enabled(s, e) && s.front.Some? && !e.TakeInGet? && !e.FreeRing?
    ensures var s' := Next(s, e);
      s'.front == s.front && At(s', s.front.value) == At(s, s.front.value) && s'.delivered == s.delivered
  {
    hide LocksHeld;
    if IsGet(e) {
      assert CallerOk(s, Pc(s, e.u));
    }
  }

  /**
   * What `sync_get` returns: a finished frame with its own timestamp, the newest one the driver
   * has handed over. At most one newer frame exists, and its callback is still waiting.
   */
  lemma ReturnedFrame(es: seq<Event>, i: nat, u: nat)
    requires i < |es| && es[i] == ReturnFromGet(u) && Happens(es, i)
    ensures var s := StateAt(es, i);
      var pc := Pc(s, u);
      && At(s, pc.data) == Frame(s.published, pc.stamp) && s.delivered == s.published
      && (s.published == s.completed || (s.driver.Called? && s.completed == s.published + 1))
  {
    RunInv(es, i);
    var s := StateAt(es, i);
    assert CallerOk(s, Pc(s, u));
    assert s.ringLock == Some(Caller(u));
  }

  lemma DeliveredKept(s: State, e: Event)
    requires Inv(s) && Enabled(s, e)
    ensures Next(s, e).delivered == if e.TakeInGet? then s.published else s.delivered
    ensures e.TakeInGet? ==> s.delivered < s.published
  {
    hide Pc, HoldsLoop, Freed;
    if e.TakeInGet? {
      assert s.ringLock == Some(Caller(e.u));
    }
  }

  lemma {:induction false} DeliveredGrows(es: seq<Event>, i: nat, j: nat)
    requires i <= j <= |es|
    ensures StateAt(es, i).delivered <= StateAt(es, j).delivered
  {
    if i < j {
      DeliveredGrows(es, i, j - 1);
      RunInv(es, j - 1);
      if Happens(es, j - 1) {
        DeliveredKept(StateAt(es, j - 1), es[j - 1]);
      }
    }
  }

  /** Delivered frames are strictly increasing, and each is the newest published when it is taken. */
  lemma StrictlyIncreasing(es: seq<Event>, i: nat, j: nat)
    requires i < j < |es| && es[i].TakeInGet? && es[j].TakeInGet? && Happens(es, i) && Happens(es, j)
    ensures StateAt(es, i + 1).delivered == StateAt(es, i).published
    ensures StateAt(es, j + 1).delivered == StateAt(es, j).published
    ensures StateAt(es, i + 1).delivered < StateAt(es, j + 1).delivered
  {
    RunInv(es, i);
    RunInv(es, j);
    DeliveredKept(StateAt(es, i), es[i]);
    DeliveredKept(StateAt(es, j), es[j]);
    DeliveredGrows(es, i + 1, j);
  }

  // ---------------------------------------------------------------- critical sections as one step

  /** The callback's steps, taken from the moment it has the lock, amount to `Publish` and `set_buffer`. */
  lemma CallbackIsPublish(s: State)
    requires s.driver.Locked?
    ensures var s1 := Next(s, SwapInCallback);
      var s2 := Next(s1, SetBufferInCallback);
      var s3 := Next(s2, PublishInCallback);
      && s3.ring == Publish(s.ring, s.driver.stamp)
      && s3.stream == SetBuffer(s.stream, s.ring.b1)
      && s3.published == s.completed
  {
  }

  /** The steps of `sync_get` from the moment it finds a frame amount to `Take`. */
  lemma GetIsTake(s: State, u: nat)
    requires Enabled(s, TakeInGet(u))
    ensures var s1 := Next(s, TakeInGet(u));
      Enabled(s1, ClearInGet(u)) &&
      var s2 := Next(s1, ClearInGet(u));
      s2.ring == Take(s.ring) && Pc(s2, u) == Cleared(s.ring.b1, s.ring.timestamp)
  {
  }
}
