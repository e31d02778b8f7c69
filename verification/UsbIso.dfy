/**
 * The life of a stream's isochronous transfers (libfreenect/src/usb_libusb10.c, `fnusb_start_iso`,
 * `iso_callback`, `fnusb_stop_iso`). libusb is the environment: which submission it accepts, which
 * transfer it completes next and with what status are arbitrary.
 */
module UsbIso {
  import opened Arith

  datatype Submit = Accepted | NoDevice | Refused

  datatype Status = Completed | DeviceLost | Cancelled | OtherError

  /** `inFlight` is the set of transfers libusb owns: submitted and not yet handed back. */
  datatype State = State(numXfers: nat, inFlight: set<nat>, deadXfers: nat, dead: bool, deviceDead: bool)

  /** The conservation law: every transfer is either in flight or counted dead. */
  predicate Conserved(s: State) {
    && |s.inFlight| + s.deadXfers == s.numXfers
    && forall i :: i in s.inFlight ==> i < s.numXfers
  }

  /** A transfer comes back and is not submitted again. */
  function Retire(s: State, i: nat): State {
    s.(inFlight := s.inFlight - {i}, deadXfers := s.deadXfers + 1)
  }

  /** The effect of `iso_callback` on transfer `i`; `again` is what a resubmission would answer. */
  function Callback(s: State, i: nat, status: Status, again: Submit): State {
    if s.dead then Retire(s, i)
    else match status
      case DeviceLost => Retire(s, i).(deviceDead := true)
      case Cancelled => Retire(s, i).(deviceDead := true)
      case _ =>
        if again.Accepted? then s
        else Retire(s, i).(deviceDead := s.deviceDead || again.NoDevice?)
  }

  /** Whether the callback hands the transfer's packets to the stream's user. */
  predicate HandsOver(s: State, status: Status) {
    !s.dead && status.Completed?
  }

  lemma CallbackConserves(s: State, i: nat, status: Status, again: Submit)
    requires Conserved(s) && i in s.inFlight
    ensures Conserved(Callback(s, i, status, again))
    ensures var s' := Callback(s, i, status, again);
      && s'.dead == s.dead && s'.numXfers == s.numXfers
      && (s.dead ==> |s'.inFlight| == |s.inFlight| - 1)
      && (i in s'.inFlight <==> !s.dead && (status.Completed? || status.OtherError?) && again.Accepted?)
      && (s'.deviceDead && !s.deviceDead ==>
            !s.dead && (status.DeviceLost? || status.Cancelled? || again.NoDevice?))
  {
  }

  // ---------------------------------------------------------------- whole runs

  datatype Event = Return(xfer: nat, status: Status, again: Submit) | Stop

  /** libusb hands back only what it owns; anything else cannot happen and is skipped. */
  function Next(s: State, e: Event): State {
    match e
    case Stop => s.(dead := true)
    case Return(i, status, again) => if i in s.inFlight then Callback(s, i, status, again) else s
  }

  function StateAt(s: State, es: seq<Event>, i: nat): State
    requires i <= |es|
  {
    if i == 0 then s else Next(StateAt(s, es, i - 1), es[i - 1])
  }

  /** Event `i` runs the stream's user callback. */
  predicate RunsUser(s: State, es: seq<Event>, i: nat)
    requires i < |es|
  {
    var r := StateAt(s, es, i);
    es[i].Return? && es[i].xfer in r.inFlight && HandsOver(r, es[i].status)
  }

  /**
   * Over every run from a conserved start: the law holds throughout, so all transfers are dead
   * exactly when nothing is in flight; and from the stop on, the user callback never runs and
   * every transfer that comes back reduces what is left.
   */
  lemma {:induction false} RunConserves(s: State, es: seq<Event>, i: nat)
    requires Conserved(s) && i <= |es|
    ensures var r := StateAt(s, es, i);
      && Conserved(r) && r.numXfers == s.numXfers
      && (r.deadXfers >= r.numXfers <==> r.inFlight == {})
      && (r.dead <==> s.dead || StoppedBefore(es, i))
      && r.inFlight <= s.inFlight
    ensures i < |es| && StoppedBefore(es, i) ==> !RunsUser(s, es, i)
  {
    hide StoppedBefore;
    StoppedNext(es, i);
    if i > 0 {
      RunConserves(s, es, i - 1);
      var before, e := StateAt(s, es, i - 1), es[i - 1];
      if e.Return? && e.xfer in before.inFlight {
        CallbackConserves(before, e.xfer, e.status, e.again);
      }
    }
    var r := StateAt(s, es, i);
    if r.inFlight != {} {
      var x :| x in r.inFlight;
      assert |r.inFlight - {x}| < |r.inFlight|;
    }
  }

  /** A stop is among the first `i` events. */
  ghost predicate StoppedBefore(es: seq<Event>, i: nat)
    requires i <= |es|
  {
    exists j :: 0 <= j < i && es[j].Stop?
  }

  lemma StoppedNext(es: seq<Event>, i: nat)
    requires i <= |es|
    ensures StoppedBefore(es, i) <==> i > 0 && (StoppedBefore(es, i - 1) || es[i - 1].Stop?)
  {
  }

  // ---------------------------------------------------------------- when the stop loop can end

  /** In every run, conserved or not, what is in flight and what is dead add up to the same. */
  lemma {:induction false} SumKept(s: State, es: seq<Event>, i: nat)
    requires i <= |es|
    ensures var r := StateAt(s, es, i);
      |r.inFlight| + r.deadXfers == |s.inFlight| + s.deadXfers && r.numXfers == s.numXfers
  {
    if i > 0 {
      SumKept(s, es, i - 1);
    }
  }

  lemma {:induction false} Shifted(s: State, e: Event, es: seq<Event>, i: nat)
    requires i <= |es|
    ensures StateAt(s, [e] + es, i + 1) == StateAt(Next(s, e), es, i)
  {
    if i > 0 {
      Shifted(s, e, es, i - 1);
    } else {
      assert StateAt(s, [e] + es, 0) == s;
    }
  }

  /** After a stop, handing back everything in flight counts all of it dead. */
  lemma {:induction false} Drains(s: State) returns (es: seq<Event>)
    requires s.dead
    ensures StateAt(s, es, |es|).deadXfers == |s.inFlight| + s.deadXfers
    decreases |s.inFlight|
  {
    if s.inFlight == {} {
      return [];
    }
    var i :| i in s.inFlight;
    var e := Return(i, Cancelled, Accepted);
    var rest := Drains(Next(s, e));
    Shifted(s, e, rest, |rest|);
    return [e] + rest;
  }

  /**
   * Exactly when the loop of `fnusb_stop_iso` can end: if every transfer is in flight or dead. Inside
   * the user callback the transfer being handled is neither, so a stop from there waits for ever.
   */
  lemma StopEndsIff(s: State)
    requires s.dead
    ensures (exists es :: Ended(s, es)) <==> |s.inFlight| + s.deadXfers >= s.numXfers
  {
    if |s.inFlight| + s.deadXfers >= s.numXfers {
      var es := Drains(s);
      SumKept(s, es, |es|);
      assert Ended(s, es);
    }
    if exists es :: Ended(s, es) {
      var es :| Ended(s, es);
      SumKept(s, es, |es|);
    }
  }

  /** The loop's condition is false after these events. */
  predicate Ended(s: State, es: seq<Event>) {
    StateAt(s, es, |es|).deadXfers >= s.numXfers
  }

  // ---------------------------------------------------------------- slices of the allocation

  /** Where packet `j` of transfer `i` starts in the one buffer of the stream. */
  function SliceStart(pkts: nat, len: nat, i: nat, j: nat): nat {
    Times(Times(i, pkts) + j, len)
  }

  lemma {:induction false} TimesSum(a: nat, b: nat, m: nat)
    ensures Times(a + b, m) == Times(a, m) + Times(b, m)
  {
    if b > 0 {
      TimesSum(a, b - 1, m);
    }
  }

  /** Slices are inside the allocation, and slices of different packets do not overlap. */
  lemma SlicesDisjoint(xfers: nat, pkts: nat, len: nat, i: nat, j: nat, i': nat, j': nat)
    requires i < xfers && j < pkts && i' < xfers && j' < pkts
    ensures SliceStart(pkts, len, i, j) + len <= xfers * pkts * len
    ensures (i, j) != (i', j') ==>
      || SliceStart(pkts, len, i, j) + len <= SliceStart(pkts, len, i', j')
      || SliceStart(pkts, len, i', j') + len <= SliceStart(pkts, len, i, j)
  {
    hide Times;
    var a, b := Times(i, pkts) + j, Times(i', pkts) + j';
    PacketBelow(xfers, pkts, i, j);
    TimesNext(a, len);
    TimesNext(b, len);
    TimesMonotone(a + 1, Times(xfers, pkts), len);
    TimesIsProduct(xfers, pkts);
    TimesIsProduct(Times(xfers, pkts), len);
    if i < i' {
      PacketBelow(i', pkts, i, j);
    } else if i' < i {
      PacketBelow(i, pkts, i', j');
    }
    if a < b {
      TimesMonotone(a + 1, b, len);
    } else if b < a {
      TimesMonotone(b + 1, a, len);
    }
  }

  lemma TimesNext(n: nat, m: nat)
    ensures Times(n + 1, m) == Times(n, m) + m
  {
  }

  lemma PacketBelow(bound: nat, pkts: nat, i: nat, j: nat)
    requires i < bound && j < pkts
    ensures Times(i, pkts) + j < Times(bound, pkts)
  {
    TimesMonotone(i + 1, bound, pkts);
  }

  // ---------------------------------------------------------------- the record and its functions

  /** A packet handed to the user: where it starts in the buffer and how many bytes arrived. */
  datatype Slice = Slice(start: nat, size: nat)

  class IsoStream {
    var numXfers: nat
    var pkts: nat
    var len: nat
    var buffer: array<byte>
    var xferSet: set<nat>
    var inFlight: set<nat>
    var dead: bool
    var deadXfers: nat
    var deviceDead: bool

    function Contents(): State
      reads this
    {
      State(numXfers, inFlight, deadXfers, dead, deviceDead)
    }

    ghost predicate Valid()
      reads this
    {
      && Conserved(Contents())
      && inFlight <= xferSet
      && buffer.Length == numXfers * pkts * len
    }

    /**
     * `fnusb_start_iso`. `alloc[i]` says whether a transfer could be allocated and `answers[i]`
     * what its submission answered.
     */
    constructor Start(xfers: nat, pkts: nat, len: nat, alloc: seq<bool>, answers: seq<Submit>)
      requires |alloc| == |answers| == xfers
      ensures Valid() && !dead && !deviceDead
      ensures numXfers == xfers && this.pkts == pkts && this.len == len && fresh(buffer)
      ensures forall i :: i in inFlight <==> 0 <= i < xfers && alloc[i] && answers[i].Accepted?
      ensures forall i :: i in xferSet <==> 0 <= i < xfers && alloc[i]
    {
      numXfers := xfers;
      this.pkts := pkts;
      this.len := len;
      dead := false;
      deadXfers := 0;
      deviceDead := false;
      xferSet := {};
      inFlight := {};
      TimesIsProduct(xfers, pkts);
      TimesIsProduct(Times(xfers, pkts), len);
      buffer := new byte[xfers * pkts * len];
      new;
      var i := 0;
      while i < xfers
        invariant 0 <= i <= xfers
        invariant |inFlight| + deadXfers == i
        invariant forall k :: k in inFlight <==> 0 <= k < i && alloc[k] && answers[k].Accepted?
        invariant forall k :: k in xferSet <==> 0 <= k < i && alloc[k]
        invariant numXfers == xfers && this.pkts == pkts && this.len == len && !dead && !deviceDead
        invariant fresh(buffer) && buffer.Length == xfers * pkts * len
        modifies this
      {
        if !alloc[i] {
          deadXfers := deadXfers + 1;
        } else {
          xferSet := xferSet + {i};
          if answers[i].Accepted? {
            inFlight := inFlight + {i};
          } else {
            deadXfers := deadXfers + 1;
          }
        }
        i := i + 1;
      }
    }

    /** `iso_callback`: `sizes` are the lengths that arrived, `handed` what the user was given. */
    method IsoCallback(i: nat, status: Status, sizes: seq<nat>, again: Submit) returns (handed: seq<Slice>)
      requires Valid() && i in inFlight
      requires |sizes| == pkts && forall j :: 0 <= j < pkts ==> sizes[j] <= len
      modifies this
      ensures Valid()
      ensures Contents() == Callback(old(Contents()), i, status, again)
      ensures pkts == old(pkts) && len == old(len) && buffer == old(buffer) && xferSet == old(xferSet)
      ensures if HandsOver(old(Contents()), status) then
                && |handed| == pkts
                && forall j :: 0 <= j < pkts ==> handed[j] == Slice(SliceStart(pkts, len, i, j), sizes[j])
              else handed == []
    {
      CallbackConserves(Contents(), i, status, again);
      handed := [];
      if dead {
        deadXfers := deadXfers + 1;
        inFlight := inFlight - {i};
        return;
      }
      match status {
        case Completed =>
          handed := WalkPackets(i, sizes);
          Resubmit(i, again);
        case DeviceLost =>
          deadXfers := deadXfers + 1;
          inFlight := inFlight - {i};
          deviceDead := true;
        case Cancelled =>
          deviceDead := true;
          deadXfers := deadXfers + 1;
          inFlight := inFlight - {i};
        case OtherError =>
          Resubmit(i, again);
      }
    }

    /** The loop that walks the transfer's buffer in steps of `len`. */
    method WalkPackets(i: nat, sizes: seq<nat>) returns (handed: seq<Slice>)
      requires |sizes| == pkts
      ensures |handed| == pkts
      ensures forall j :: 0 <= j < pkts ==> handed[j] == Slice(SliceStart(pkts, len, i, j), sizes[j])
    {
      handed := [];
      var buf := XferStart(i);
      for j := 0 to pkts
        invariant |handed| == j && buf == SliceStart(pkts, len, i, j)
        invariant forall k :: 0 <= k < j ==> handed[k] == Slice(SliceStart(pkts, len, i, k), sizes[k])
      {
        handed := handed + [Slice(buf, sizes[j])];
        buf := buf + len;
      }
    }

    /** The buffer of transfer `i`: `bufp` advanced by one transfer `i` times. */
    method XferStart(i: nat) returns (bufp: nat)
      ensures bufp == SliceStart(pkts, len, i, 0)
    {
      bufp := 0;
      for k := 0 to i
        invariant bufp == SliceStart(pkts, len, k, 0)
      {
        bufp := bufp + pkts * len;
        TimesSum(Times(k, pkts), pkts, len);
        TimesIsProduct(pkts, len);
      }
    }

    method Resubmit(i: nat, again: Submit)
      requires i in inFlight
      modifies this
      ensures Contents() == if again.Accepted? then old(Contents()) else
                Retire(old(Contents()), i).(deviceDead := old(deviceDead) || again.NoDevice?)
      ensures pkts == old(pkts) && len == old(len) && buffer == old(buffer) && xferSet == old(xferSet)
    {
      if again != Accepted {
        deadXfers := deadXfers + 1;
        inFlight := inFlight - {i};
        if again == NoDevice {
          deviceDead := true;
        }
      }
    }

    /**
     * `fnusb_stop_iso`: the loop ends, and when it ends nothing is in flight, so the buffers can be
     * freed. Cancelling takes every transfer without a check: if one could not be allocated, the
     * call faults there, before anything is waited for or freed.
     */
    method Stop() returns (faulted: bool)
      requires Valid()
      modifies this
      ensures Valid() && dead
      ensures faulted <==> exists i :: 0 <= i < numXfers && i !in xferSet
      ensures !faulted ==> inFlight == {} && deadXfers == numXfers
      ensures faulted ==> inFlight == old(inFlight) && deadXfers == old(deadXfers)
      ensures numXfers == old(numXfers) && deviceDead == old(deviceDead)
      ensures buffer == old(buffer) && xferSet == old(xferSet)
    {
      dead := true;
      for i := 0 to numXfers
        invariant forall j :: 0 <= j < i ==> j in xferSet
      {
        if i !in xferSet {
          return true;
        }
      }
      AwaitAll();
      return false;
    }

    /** The loop over events: libusb hands back any transfer it still owns, with any status. */
    method AwaitAll()
      requires Valid() && dead
      modifies this
      ensures Valid() && dead && inFlight == {} && deadXfers == numXfers
      ensures numXfers == old(numXfers) && deviceDead == old(deviceDead)
      ensures buffer == old(buffer) && xferSet == old(xferSet)
    {
      while deadXfers < numXfers
        invariant Valid() && dead
        invariant numXfers == old(numXfers) && deviceDead == old(deviceDead)
        invariant buffer == old(buffer) && xferSet == old(xferSet)
        decreases |inFlight|
      {
        assert inFlight != {};
        var i :| i in inFlight;
        var status: Status := *;
        var again: Submit := *;
        var handed := IsoCallback(i, status, seq(pkts, _ => 0), again);
        assert handed == [];
      }
    }
  }
}
