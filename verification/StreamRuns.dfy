/**
 * Whole runs of the packet stream: what holds for every packet sequence, and what holds when the
 * packets come from a sender through a channel that loses some of them. Between two packets the
 * stream may be redirected to another buffer, as the frame callbacks do.
 */
module StreamRuns {
  import opened Arith
  import opened PacketStreams
  import opened Options

  /**
   * A packet, and the buffer that `stream_setbuf` makes the raw buffer of the stream before the
   * next packet, if it does. Of several calls the last one counts. A stream with a raw buffer of
   * its own is never redirected.
   */
  datatype Step = Step(pkt: seq<byte>, buf: Option<seq<byte>>)

  /** The user's buffers are large enough for a frame; nothing is said of what they hold. */
  predicate Fits(l: Layout, run: seq<Step>) {
    forall i :: 0 <= i < |run| && run[i].buf.Some? ==> l.frameSize <= |run[i].buf.value|
  }

  /** The state before packet `i`. */
  function StateAt(l: Layout, s: State, run: seq<Step>, i: nat): (r: State)
    requires l.Valid() && Safe(l, s) && Fits(l, run) && i <= |run|
    ensures Safe(l, r)
    decreases i, 0
  {
    if i == 0 then s
    else
      Redirect(After(l, s, run, i - 1), run[i - 1].buf)
  }

  /** The state when the call for packet `i` returns, before any redirection. */
  function After(l: Layout, s: State, run: seq<Step>, i: nat): (r: State)
    requires l.Valid() && Safe(l, s) && Fits(l, run) && i < |run|
    ensures Safe(l, r)
    decreases i, 1
  {
    ProcessSafe(l, StateAt(l, s, run, i), run[i].pkt);
    Process(l, StateAt(l, s, run, i), run[i].pkt).0
  }

  /** What the call for packet `i` returns. */
  function GotAt(l: Layout, s: State, run: seq<Step>, i: nat): nat
    requires l.Valid() && Safe(l, s) && Fits(l, run) && i < |run|
  {
    Process(l, StateAt(l, s, run, i), run[i].pkt).1
  }

  /** The number of calls among the first `i` that reported a frame. */
  function Reported(l: Layout, s: State, run: seq<Step>, i: nat): nat
    requires l.Valid() && Safe(l, s) && Fits(l, run) && i <= |run|
  {
    if i == 0 then 0
    else Reported(l, s, run, i - 1) + (if GotAt(l, s, run, i - 1) != 0 then 1 else 0)
  }

  /**
   * Safety for arbitrary packets: from an unsynchronised stream, at every point of every run, the
   * position stays inside the frame, a packet changes only the first `frameSize` bytes of the buffer,
   * each call returns 0 or a whole frame, and once some packet synchronised the stream the packet
   * count it publishes never exceeds a frame.
   */
  lemma {:induction false} RunSafe(l: Layout, s: State, run: seq<Step>, i: nat)
    requires l.Valid() && l.frameSize <= |s.raw| && Fits(l, run) && !s.synced && i <= |run|
    ensures var r := StateAt(l, s, run, i);
      && (r.synced ==> 0 <= r.gotPkts <= r.pktNum < l.pktsPerFrame)
      && (r == s.(raw := r.raw) || 0 <= r.validPkts <= l.pktsPerFrame)
      && s.validFrames + Reported(l, s, run, i) <= r.validFrames
    ensures i < |run| ==>
      && (GotAt(l, s, run, i) == 0 || GotAt(l, s, run, i) == l.frameSize)
      && SameTail(l, StateAt(l, s, run, i).raw, After(l, s, run, i).raw)
  {
    if i > 0 {
      RunSafe(l, s, run, i - 1);
      ProcessSafe(l, StateAt(l, s, run, i - 1), run[i - 1].pkt);
    }
    if i < |run| {
      ProcessSafe(l, StateAt(l, s, run, i), run[i].pkt);
    }
  }

  /**
   * With at least six packets in a frame, no packet completes two frames at once, so a call
   * returns nonzero exactly when `validFrames` grows, and then it grows by one.
   */
  lemma OneFramePerPacket(l: Layout, s: State, pkt: seq<byte>)
    requires l.Valid() && Safe(l, s) && 6 <= l.pktsPerFrame
    ensures var (s', got) := Process(l, s, pkt);
      s'.validFrames == s.validFrames + if got != 0 then 1 else 0
  {
  }

  /** The loss completes one frame and the packet that reveals it ends the next. */
  predicate EndsTwo(l: Layout, s: State, pkt: seq<byte>)
    requires l.Valid()
  {
    && s.synced && HasMagic(pkt) && HdrFlag(pkt) == l.Eof() && |Payload(pkt)| <= l.lastPktSize
    && Lost(s, HdrSeq(pkt)) <= 5
    && Lost(s, HdrSeq(pkt)) == l.pktsPerFrame - s.pktNum + l.pktsPerFrame - 1
  }

  /** Accepting a packet counts a frame exactly for the end of frame in the last slot. */
  lemma AcceptCounts(l: Layout, s: State, pkt: seq<byte>, got: nat)
    requires l.Valid() && HasMagic(pkt) && l.frameSize <= |s.raw| && s.synced && 0 <= s.pktNum
    ensures var (s', got') := Accept(l, s, pkt, got);
      var ends := s.pktNum == l.pktsPerFrame - 1 && HdrFlag(pkt) == l.Eof() && |Payload(pkt)| <= l.lastPktSize;
      s'.validFrames == s.validFrames + (if ends then 1 else 0) && got' == if ends then l.frameSize else got
  {
    l.SlotFits(l.pktsPerFrame - 1);
  }

  /** For every frame length: a call counts two frames exactly then, and reports only one of them. */
  lemma CountsTwoIff(l: Layout, s: State, pkt: seq<byte>)
    requires l.Valid() && Safe(l, s)
    ensures var (s', got) := Process(l, s, pkt);
      && s'.validFrames == s.validFrames + (if got == 0 then 0 else if EndsTwo(l, s, pkt) then 2 else 1)
      && (EndsTwo(l, s, pkt) ==> got == l.frameSize)
  {
    if HasMagic(pkt) && (s.synced || HdrFlag(pkt) == l.Sof()) {
      var s1 := if s.synced then s else Sync(s, HdrSeq(pkt));
      RecoverSafe(l, s1, HdrSeq(pkt));
      var (s2, got) := Recover(l, s1, HdrSeq(pkt));
      if s2.synced {
        AcceptCounts(l, s2, pkt, got);
      }
    }
  }

  /** So it can happen exactly when a frame has at most five packets. */
  lemma SixIsTight(l: Layout, s: State, pkt: seq<byte>)
    requires l.Valid() && Safe(l, s) && HasMagic(pkt) && HdrFlag(pkt) == l.Eof() && |Payload(pkt)| <= l.lastPktSize
    requires s.synced && s.pktNum == l.pktsPerFrame - 1 && Lost(s, HdrSeq(pkt)) == l.pktsPerFrame
    ensures Process(l, s, pkt).0.validFrames == s.validFrames + 2 <==> l.pktsPerFrame <= 5
  {
    CountsTwoIff(l, s, pkt);
  }

  lemma {:induction false} ReportsAreFrames(l: Layout, s: State, run: seq<Step>, i: nat)
    requires l.Valid() && Safe(l, s) && Fits(l, run) && 6 <= l.pktsPerFrame && i <= |run|
    ensures StateAt(l, s, run, i).validFrames == s.validFrames + Reported(l, s, run, i)
  {
    if i > 0 {
      ReportsAreFrames(l, s, run, i - 1);
      OneFramePerPacket(l, StateAt(l, s, run, i - 1), run[i - 1].pkt);
    }
  }

  // ---------------------------------------------------------------- sender and channel

  /** Packet number `n` of the sender: its flag, sequence number and size follow from `n`. */
  ghost predicate Sent(l: Layout, n: nat, pkt: seq<byte>)
    requires l.Valid()
  {
    && HasMagic(pkt)
    && HdrFlag(pkt) == l.FlagOf(Mod(n, l.pktsPerFrame))
    && HdrSeq(pkt) == n % 256
    && |Payload(pkt)| <= l.ExpectedSize(Mod(n, l.pktsPerFrame))
  }

  /** The stream is in step with the sender and expects packet number `next`. */
  ghost predicate Tracks(l: Layout, s: State, next: nat)
    requires l.Valid()
  {
    s.synced && s.seqNo == next % 256 && s.pktNum == Mod(next, l.pktsPerFrame)
  }

  /** Loss recovery moves the position forward by the distance between the sequence numbers. */
  lemma RecoverTracks(l: Layout, s: State, next: nat, seqNo: byte)
    requires l.Valid() && Safe(l, s) && 6 <= l.pktsPerFrame && Tracks(l, s, next)
    ensures var (s', got) := Recover(l, s, seqNo);
      var lost := Lost(s, seqNo);
      var wrapped := Div(next, l.pktsPerFrame) < Div(next + lost, l.pktsPerFrame);
      if lost > 5 then !s'.synced && got == 0 && s'.validFrames == s.validFrames
      else
        && s'.synced && s'.seqNo == seqNo && s'.pktNum == Mod(next + lost, l.pktsPerFrame)
        && Div(next + lost, l.pktsPerFrame) == Div(next, l.pktsPerFrame) + (if wrapped then 1 else 0)
        && s'.raw == s.raw && s'.lastTimestamp == s.lastTimestamp
        && (if wrapped then
              && got == l.frameSize && s'.validFrames == s.validFrames + 1 && s'.gotPkts == 0
              && s'.validPkts == s.gotPkts && s'.timestamp == s.lastTimestamp && s'.pktNum <= 4
            else
              && got == 0 && s'.validFrames == s.validFrames && s'.gotPkts == s.gotPkts
              && s'.validPkts == s.validPkts && s'.timestamp == s.timestamp)
  {
    var lost := Lost(s, seqNo);
    if lost <= 5 {
      StepDivMod(next, lost, l.pktsPerFrame);
    }
  }

  lemma AcceptInSlot(l: Layout, s: State, n: nat, pkt: seq<byte>, got: nat)
    requires l.Valid() && l.frameSize <= |s.raw| && Sent(l, n, pkt)
    requires s.synced && s.seqNo == n % 256 && s.pktNum == Mod(n, l.pktsPerFrame)
    ensures l.SlotStart(Mod(n, l.pktsPerFrame)) + |Payload(pkt)| <= |s.raw|
    ensures var (s', got') := Accept(l, s, pkt, got);
      var ended := Mod(n + 1, l.pktsPerFrame) == 0;
      && Tracks(l, s', n + 1)
      && s'.raw == Overwrite(s.raw, l.SlotStart(Mod(n, l.pktsPerFrame)), Payload(pkt))
      && s'.lastTimestamp == HdrTimestamp(pkt)
      && (ended <==> s.pktNum == l.pktsPerFrame - 1)
      && Div(n + 1, l.pktsPerFrame) == Div(n, l.pktsPerFrame) + (if ended then 1 else 0)
      && s'.validFrames == s.validFrames + (if ended then 1 else 0)
      && got' == (if ended then l.frameSize else got)
      && (if ended then
            s'.gotPkts == 0 && s'.validPkts == s.gotPkts + 1 && s'.timestamp == HdrTimestamp(pkt)
          else
            s'.gotPkts == s.gotPkts + 1 && s'.validPkts == s.validPkts && s'.timestamp == s.timestamp)
  {
    StepDivMod(n, 1, l.pktsPerFrame);
    l.SlotFits(Mod(n, l.pktsPerFrame));
  }

  /** A stream that waits is in step from the first start of frame that arrives, and from no other packet. */
  lemma Resyncs(l: Layout, s: State, n: nat, pkt: seq<byte>)
    requires l.Valid() && Safe(l, s) && !s.synced && Sent(l, n, pkt)
    ensures var (s', got) := Process(l, s, pkt);
      if Mod(n, l.pktsPerFrame) != 0 then (s', got) == (s, 0)
      else
        && Tracks(l, s', n + 1) && got == 0 && s'.validFrames == s.validFrames && s'.gotPkts == 1
        && s'.lastTimestamp == HdrTimestamp(pkt)
        && |Payload(pkt)| <= |s.raw| && s'.raw == Overwrite(s.raw, 0, Payload(pkt))
  {
    hide Process, Accept, Overwrite, Div;
    Waiting(l, s, pkt);
    if Mod(n, l.pktsPerFrame) == 0 {
      AcceptInSlot(l, Sync(s, HdrSeq(pkt)), n, pkt, 0);
    }
  }

  /** A start of frame is accepted as the first packet, and no other packet is. */
  lemma Waiting(l: Layout, s: State, pkt: seq<byte>)
    requires l.Valid() && Safe(l, s) && !s.synced && HasMagic(pkt)
    ensures Process(l, s, pkt) ==
            if HdrFlag(pkt) == l.Sof() then Accept(l, Sync(s, HdrSeq(pkt)), pkt, 0) else (s, 0)
  {
    hide Accept;
  }

  /** Neither the first nor the last slot of a frame. */
  predicate Interior(l: Layout, slot: int) {
    0 < slot < l.pktsPerFrame - 1
  }

  /** If the position disagrees with the packet's own slot, the flag gives it away unless both are interior. */
  lemma AcceptOutOfSlot(l: Layout, s: State, n: nat, pkt: seq<byte>, got: nat)
    requires l.Valid() && l.frameSize <= |s.raw| && Sent(l, n, pkt)
    requires s.synced && s.seqNo == n % 256
    requires 0 <= s.pktNum < l.pktsPerFrame && s.pktNum != Mod(n, l.pktsPerFrame)
    ensures var (s', got') := Accept(l, s, pkt, got);
      && (s'.synced <==> Interior(l, s.pktNum) && Interior(l, Mod(n, l.pktsPerFrame)))
      && (s'.synced ==> s'.pktNum == s.pktNum + 1 && s'.seqNo == (n + 1) % 256)
      && got' == got
  {
    l.SlotFits(s.pktNum);
  }

  /** So the stream cannot be in step afterwards. */
  lemma StaysOutOfStep(l: Layout, s: State, n: nat, pkt: seq<byte>, got: nat)
    requires l.Valid() && l.frameSize <= |s.raw| && Sent(l, n, pkt)
    requires s.synced && s.seqNo == n % 256
    requires 0 <= s.pktNum < l.pktsPerFrame && s.pktNum != Mod(n, l.pktsPerFrame)
    ensures !Tracks(l, Accept(l, s, pkt, got).0, n + 1)
  {
    AcceptOutOfSlot(l, s, n, pkt, got);
    StepDivMod(n, 1, l.pktsPerFrame);
  }

  /**
   * Exactly when a gap is survived: the stream that expected packet `next` and receives packet `n`
   * is in step afterwards if and only if the 8-bit distance is at most 5 and the packets that the
   * 8-bit counter cannot see fill whole frames.
   */
  lemma InStepIff(l: Layout, s: State, next: nat, n: nat, pkt: seq<byte>)
    requires l.Valid() && Safe(l, s) && 6 <= l.pktsPerFrame && Tracks(l, s, next)
    requires next <= n && Sent(l, n, pkt)
    ensures var skipped := n - next;
      Tracks(l, Process(l, s, pkt).0, n + 1) <==>
      skipped % 256 <= 5 && Mod(skipped - skipped % 256, l.pktsPerFrame) == 0
  {
    hide Accept, Recover, Overwrite, Div;
    var m, lost := l.pktsPerFrame, Lost(s, HdrSeq(pkt));
    SubMod(n, next, 256);
    assert lost == (n - next) % 256;
    RecoverTracks(l, s, next, HdrSeq(pkt));
    if lost <= 5 {
      var (s2, got) := Recover(l, s, HdrSeq(pkt));
      WholeBlocksApart(next + lost, n, m);
      if s2.pktNum == Mod(n, m) {
        AcceptInSlot(l, s2, n, pkt, got);
      } else {
        StaysOutOfStep(l, s2, n, pkt, got);
      }
    }
  }

  /**
   * A stream that is out of step, because too many packets were lost for its counters, stays
   * synchronised over a packet exactly when both its position and the packet's own slot are interior.
   */
  lemma OutOfStepIff(l: Layout, s: State, n: nat, pkt: seq<byte>)
    requires l.Valid() && Safe(l, s) && s.synced && Sent(l, n, pkt)
    requires var s2 := Recover(l, s, HdrSeq(pkt)).0;
      s2.synced && s2.pktNum < l.pktsPerFrame && s2.pktNum != Mod(n, l.pktsPerFrame)
    ensures var s2, (s', got) := Recover(l, s, HdrSeq(pkt)).0, Process(l, s, pkt);
      && (s'.synced <==> Interior(l, s2.pktNum) && Interior(l, Mod(n, l.pktsPerFrame)))
      && (s'.synced ==> s'.pktNum == s2.pktNum + 1 && s'.seqNo == (n + 1) % 256)
      && got == Recover(l, s, HdrSeq(pkt)).1
  {
    RecoverSafe(l, s, HdrSeq(pkt));
    var (s2, got) := Recover(l, s, HdrSeq(pkt));
    AcceptOutOfSlot(l, s2, n, pkt, got);
  }

  /** Packets `n, n + 1, ...` of the sender, none of them lost. */
  ghost predicate Consecutive(l: Layout, n: nat, run: seq<Step>)
    requires l.Valid()
  {
    Fits(l, run) && forall i :: 0 <= i < |run| ==> SentAs(l, n, run, i)
  }

  ghost predicate SentAs(l: Layout, n: nat, run: seq<Step>, i: nat)
    requires l.Valid() && i < |run|
  {
    Sent(l, n + i, run[i].pkt)
  }

  lemma SentAt(l: Layout, n: nat, run: seq<Step>, i: nat)
    requires l.Valid() && Consecutive(l, n, run) && i < |run|
    ensures Sent(l, n + i, run[i].pkt)
  {
    assert SentAs(l, n, run, i);
  }

  ghost predicate NoReports(l: Layout, s: State, run: seq<Step>, i: nat)
    requires l.Valid() && Safe(l, s) && Fits(l, run) && i <= |run|
  {
    i == 0 || (NoReports(l, s, run, i - 1) && GotAt(l, s, run, i - 1) == 0)
  }

  /** The stream expects packet `n`, but not in the packet's slot. */
  ghost predicate OutOfStep(l: Layout, s: State, n: nat)
    requires l.Valid()
  {
    s.synced && s.seqNo == n % 256 && s.pktNum != Mod(n, l.pktsPerFrame)
  }

  lemma OutOfStepNext(l: Layout, s: State, n: nat, pkt: seq<byte>)
    requires l.Valid() && Safe(l, s) && OutOfStep(l, s, n) && Sent(l, n, pkt)
    ensures var (s', got) := Process(l, s, pkt);
      got == 0 && (s'.synced ==> OutOfStep(l, s', n + 1) && s'.pktNum == s.pktNum + 1)
  {
    OutOfStepIff(l, s, n, pkt);
    StepDivMod(n, 1, l.pktsPerFrame);
  }

  /** After `i` of those packets the stream is still as far out of step, and has reported nothing. */
  ghost predicate Drifts(l: Layout, s: State, n: nat, run: seq<Step>, i: nat)
    requires l.Valid() && Safe(l, s) && Fits(l, run) && i <= |run|
  {
    && NoReports(l, s, run, i)
    && OutOfStep(l, StateAt(l, s, run, i), n + i) && StateAt(l, s, run, i).pktNum == s.pktNum + i
  }

  lemma DriftStep(l: Layout, s: State, n: nat, run: seq<Step>, i: nat, r: State)
    requires l.Valid() && Safe(l, s) && Fits(l, run) && i < |run| && r == StateAt(l, s, run, i)
    requires OutOfStep(l, r, n) && Sent(l, n, run[i].pkt)
    ensures GotAt(l, s, run, i) == 0
    ensures var r' := StateAt(l, s, run, i + 1); r'.synced ==> OutOfStep(l, r', n + 1) && r'.pktNum == r.pktNum + 1
  {
    OutOfStepNext(l, r, n, run[i].pkt);
    assert StateAt(l, s, run, i + 1) == Redirect(Process(l, r, run[i].pkt).0, run[i].buf);
  }

  lemma DriftsOn(l: Layout, s: State, n: nat, run: seq<Step>, i: nat)
    requires l.Valid() && Safe(l, s) && Fits(l, run) && i < |run|
    requires Drifts(l, s, n, run, i) && Sent(l, n + i, run[i].pkt)
    ensures NoReports(l, s, run, i + 1)
    ensures StateAt(l, s, run, i + 1).synced ==> Drifts(l, s, n, run, i + 1)
  {
    hide Process, Sent, OutOfStep;
    DriftStep(l, s, n + i, run, i, StateAt(l, s, run, i));
  }

  /**
   * Once packets arrive again, a stream that is out of step notices by the time its position
   * reaches the end of the frame, without reporting anything; then `Resyncs` applies.
   */
  lemma {:induction false} LosesSync(l: Layout, s: State, n: nat, run: seq<Step>, i: nat) returns (j: nat)
    requires l.Valid() && Safe(l, s) && OutOfStep(l, s, n) && Consecutive(l, n, run) && i <= |run|
    ensures j <= i && NoReports(l, s, run, j)
    ensures !StateAt(l, s, run, j).synced || (j == i && Drifts(l, s, n, run, i) && i < l.pktsPerFrame - s.pktNum)
  {
    hide Process, Sent, OutOfStep, GotAt, After;
    if i == 0 {
      return 0;
    }
    j := LosesSync(l, s, n, run, i - 1);
    if StateAt(l, s, run, j).synced {
      SentAt(l, n, run, i - 1);
      DriftsOn(l, s, n, run, i - 1);
      j := i;
    }
  }

  /** One packet after a gap of at most five: where it goes and which frames it completes. */
  ghost predicate Taken(l: Layout, s: State, next: nat, n: nat, pkt: seq<byte>, s': State, got: nat)
    requires l.Valid() && HasMagic(pkt)
  {
    var frame, frame' := Div(next, l.pktsPerFrame), Div(n + 1, l.pktsPerFrame);
    var ended := Mod(n + 1, l.pktsPerFrame) == 0;
    && Tracks(l, s', n + 1)
    && l.SlotStart(Mod(n, l.pktsPerFrame)) + |Payload(pkt)| <= |s.raw|
    && s'.raw == Overwrite(s.raw, l.SlotStart(Mod(n, l.pktsPerFrame)), Payload(pkt))
    && s'.lastTimestamp == HdrTimestamp(pkt)
    && frame <= frame' <= frame + 1
    && s'.validFrames == s.validFrames + frame' - frame
    && got == (if frame < frame' then l.frameSize else 0)
    && (if ended then
          s'.gotPkts == 0 && s'.validPkts == s.gotPkts + 1 && s'.timestamp == HdrTimestamp(pkt)
        else if frame < frame' then
          s'.gotPkts == 1 && s'.validPkts == s.gotPkts && s'.timestamp == s.lastTimestamp
        else
          s'.gotPkts == s.gotPkts + 1)
    && Div(n, l.pktsPerFrame) == (if ended then frame' - 1 else frame')
    && (ended ==> frame < frame')
  }

  lemma ShortGap(l: Layout, s: State, next: nat, n: nat, pkt: seq<byte>)
    requires l.Valid() && Safe(l, s) && 6 <= l.pktsPerFrame && Tracks(l, s, next)
    requires next <= n <= next + 5 && Sent(l, n, pkt)
    ensures Taken(l, s, next, n, pkt, Process(l, s, pkt).0, Process(l, s, pkt).1)
  {
    hide Accept, Recover, Overwrite, Mod, Div;
    SubMod(n, next, 256);
    DivModUnique(n - next, 0, n - next, 256);
    assert Lost(s, HdrSeq(pkt)) == n - next;
    RecoverTracks(l, s, next, HdrSeq(pkt));
    var (s2, got) := Recover(l, s, HdrSeq(pkt));
    AcceptInSlot(l, s2, n, pkt, got);
  }

  /**
   * The channel delivers packets `xs[0], xs[1], ...` of the sender in order, without duplicates,
   * and loses at most five consecutive ones.
   */
  ghost predicate Channel(l: Layout, xs: seq<nat>, run: seq<Step>)
    requires l.Valid()
  {
    && |xs| == |run| && Fits(l, run)
    && (forall i {:trigger Sent(l, xs[i], run[i].pkt)} :: 0 <= i < |xs| ==> Sent(l, xs[i], run[i].pkt))
    && (forall i, j :: 0 <= i < j < |xs| ==> xs[i] < xs[j])
    && (forall i :: 0 < i < |xs| ==> ShortLoss(xs, i))
  }

  ghost predicate ShortLoss(xs: seq<nat>, i: nat)
    requires 0 < i < |xs|
  {
    xs[i] <= xs[i - 1] + 6
  }

  /** Packet `k` is the first start of frame that arrives. */
  ghost predicate FirstSof(l: Layout, xs: seq<nat>, k: nat)
    requires l.Valid()
  {
    && k < |xs| && Mod(xs[k], l.pktsPerFrame) == 0
    && forall i {:trigger xs[i]} :: 0 <= i < k ==> Mod(xs[i], l.pktsPerFrame) != 0
  }

  /** How many of the packets `k..i` belong to frame `f` of the sender. */
  function Received(m: nat, xs: seq<nat>, k: nat, i: nat, f: nat): nat
    requires m > 0 && k <= i <= |xs|
  {
    if i == k then 0 else Received(m, xs, k, i - 1, f) + (if Div(xs[i - 1], m) == f then 1 else 0)
  }

  lemma {:induction false} NoneBeyond(m: nat, xs: seq<nat>, k: nat, i: nat, f: nat)
    requires m > 0 && k <= i <= |xs|
    requires forall j {:trigger xs[j]} :: k <= j < i ==> Div(xs[j], m) < f
    ensures Received(m, xs, k, i, f) == 0
  {
    if i > k {
      NoneBeyond(m, xs, k, i - 1, f);
    }
  }

  /** Before the first start of frame no packet changes anything. */
  lemma {:induction false} WaitsForSof(l: Layout, s: State, xs: seq<nat>, run: seq<Step>, k: nat, i: nat)
    requires l.Valid() && l.frameSize <= |s.raw| && !s.synced
    requires Channel(l, xs, run) && FirstSof(l, xs, k) && i <= k
    ensures StateAt(l, s, run, i) == s.(raw := StateAt(l, s, run, i).raw)
    ensures i < k ==> GotAt(l, s, run, i) == 0 && After(l, s, run, i) == StateAt(l, s, run, i)
  {
    if i > 0 {
      WaitsForSof(l, s, xs, run, k, i - 1);
      assert Sent(l, xs[i - 1], run[i - 1].pkt);
    }
    if i < k {
      assert Sent(l, xs[i], run[i].pkt);
    }
  }

  /**
   * What holds after packets `k .. i-1` were taken in step: the position, the frame count, the
   * number of packets of the current frame, and the timestamp of the last packet.
   */
  ghost predicate InStep(l: Layout, s: State, xs: seq<nat>, run: seq<Step>, k: nat, i: nat)
    requires l.Valid() && Safe(l, s) && Fits(l, run) && |xs| == |run| && k < i <= |xs|
  {
    var r, m := StateAt(l, s, run, i), l.pktsPerFrame;
    && xs[k] <= xs[i - 1]
    && Tracks(l, r, xs[i - 1] + 1)
    && r.validFrames == s.validFrames + Div(xs[i - 1] + 1, m) - Div(xs[k], m)
    && r.gotPkts == Received(m, xs, k, i, Div(xs[i - 1] + 1, m))
    && HasMagic(run[i - 1].pkt) && r.lastTimestamp == HdrTimestamp(run[i - 1].pkt)
  }

  /**
   * No desync: after the first start of frame the stream never resynchronises, whatever packets
   * are lost within the bound.
   */
  lemma {:induction false} NeverDesyncs(l: Layout, s: State, xs: seq<nat>, run: seq<Step>, k: nat, i: nat)
    requires l.Valid() && 6 <= l.pktsPerFrame && l.frameSize <= |s.raw| && !s.synced
    requires Channel(l, xs, run) && FirstSof(l, xs, k) && k < i <= |xs|
    ensures InStep(l, s, xs, run, k, i)
  {
    hide Process, StateAt, After, InStep, Sent, Mod, Div;
    if i == k + 1 {
      FirstInStep(l, s, xs, run, k);
    } else {
      NeverDesyncs(l, s, xs, run, k, i - 1);
      InStepNext(l, s, xs, run, k, i - 1);
    }
  }

  lemma InStepNext(l: Layout, s: State, xs: seq<nat>, run: seq<Step>, k: nat, i: nat)
    requires l.Valid() && 6 <= l.pktsPerFrame && l.frameSize <= |s.raw| && !s.synced
    requires Channel(l, xs, run) && k < i < |xs| && InStep(l, s, xs, run, k, i)
    ensures InStep(l, s, xs, run, k, i + 1)
  {
    TakesNext(l, s, xs, run, k, i);
    CountsNext(l, xs, run, k, i);
    StaysInStep(l, s, xs, run, k, i);
  }

  lemma StaysInStep(l: Layout, s: State, xs: seq<nat>, run: seq<Step>, k: nat, i: nat)
    requires l.Valid() && Safe(l, s) && Fits(l, run) && |xs| == |run| && k < i < |xs| && xs[k] <= xs[i]
    requires InStep(l, s, xs, run, k, i) && HasMagic(run[i].pkt)
    requires Taken(l, StateAt(l, s, run, i), xs[i - 1] + 1, xs[i], run[i].pkt,
                   After(l, s, run, i), GotAt(l, s, run, i))
    requires var f := Div(xs[i] + 1, l.pktsPerFrame);
      Div(xs[i - 1] + 1, l.pktsPerFrame) < f ==> Received(l.pktsPerFrame, xs, k, i, f) == 0
    ensures InStep(l, s, xs, run, k, i + 1)
  {
    var r, r' := StateAt(l, s, run, i), StateAt(l, s, run, i + 1);
    var m, f := l.pktsPerFrame, Div(xs[i] + 1, l.pktsPerFrame);
    assert Received(m, xs, k, i + 1, f) == Received(m, xs, k, i, f) + (if Div(xs[i], m) == f then 1 else 0);
  }

  /** A stream in step takes the next packet that arrives. */
  lemma TakesNext(l: Layout, s: State, xs: seq<nat>, run: seq<Step>, k: nat, i: nat)
    requires l.Valid() && 6 <= l.pktsPerFrame && l.frameSize <= |s.raw| && !s.synced
    requires Channel(l, xs, run) && k < i < |xs| && InStep(l, s, xs, run, k, i)
    ensures HasMagic(run[i].pkt) && |Payload(run[i].pkt)| <= l.ExpectedSize(Mod(xs[i], l.pktsPerFrame))
    ensures Taken(l, StateAt(l, s, run, i), xs[i - 1] + 1, xs[i], run[i].pkt,
                  After(l, s, run, i), GotAt(l, s, run, i))
  {
    assert Sent(l, xs[i], run[i].pkt);
    assert ShortLoss(xs, i);
    ShortGap(l, StateAt(l, s, run, i), xs[i - 1] + 1, xs[i], run[i].pkt);
  }

  /** A packet that starts a new frame is the first of that frame to be counted. */
  lemma CountsNext(l: Layout, xs: seq<nat>, run: seq<Step>, k: nat, i: nat)
    requires l.Valid() && Channel(l, xs, run) && k < i < |xs|
    ensures var f := Div(xs[i] + 1, l.pktsPerFrame);
      Div(xs[i - 1] + 1, l.pktsPerFrame) < f ==> Received(l.pktsPerFrame, xs, k, i, f) == 0
  {
    var m := l.pktsPerFrame;
    var f := Div(xs[i] + 1, m);
    if Div(xs[i - 1] + 1, m) < f {
      forall j | k <= j < i ensures Div(xs[j], m) < f {
        DivMonotone(xs[j], xs[i - 1] + 1, m);
      }
      NoneBeyond(m, xs, k, i, f);
    }
  }

  /** The packet that synchronises the stream. */
  lemma FirstPacket(l: Layout, s: State, xs: seq<nat>, run: seq<Step>, k: nat)
    requires l.Valid() && 6 <= l.pktsPerFrame && l.frameSize <= |s.raw| && !s.synced
    requires Channel(l, xs, run) && FirstSof(l, xs, k)
    ensures HasMagic(run[k].pkt) && GotAt(l, s, run, k) == 0
    ensures var raw, after := StateAt(l, s, run, k).raw, After(l, s, run, k);
      && Tracks(l, after, xs[k] + 1) && after.validFrames == s.validFrames && after.gotPkts == 1
      && after.lastTimestamp == HdrTimestamp(run[k].pkt)
      && |Payload(run[k].pkt)| <= |raw| && after.raw == Overwrite(raw, 0, Payload(run[k].pkt))
  {
    WaitsForSof(l, s, xs, run, k, k);
    assert Sent(l, xs[k], run[k].pkt);
    Resyncs(l, StateAt(l, s, run, k), xs[k], run[k].pkt);
  }

  lemma FirstInStep(l: Layout, s: State, xs: seq<nat>, run: seq<Step>, k: nat)
    requires l.Valid() && 6 <= l.pktsPerFrame && l.frameSize <= |s.raw| && !s.synced
    requires Channel(l, xs, run) && FirstSof(l, xs, k)
    ensures InStep(l, s, xs, run, k, k + 1)
  {
    var m, f := l.pktsPerFrame, Div(xs[k], l.pktsPerFrame);
    FirstPacket(l, s, xs, run, k);
    StepDivMod(xs[k], 1, m);
    assert Received(m, xs, k, k + 1, f) == Received(m, xs, k, k, f) + 1;
  }

  /**
   * A call that copies its packet into slot `slot` and nothing else, after which the position is
   * `next` and `frames` frames have been counted since `s`; it reports one exactly if that number grew.
   */
  ghost predicate StoresIn(l: Layout, s: State, before: State, pkt: seq<byte>, after: State, got: nat,
                           slot: nat, next: nat, frames: int) {
    && after.synced && after.pktNum == next
    && HasMagic(pkt) && l.SlotStart(slot) + |Payload(pkt)| <= |before.raw|
    && after.raw == Overwrite(before.raw, l.SlotStart(slot), Payload(pkt))
    && after.validFrames == s.validFrames + frames
    && got == (if after.validFrames > before.validFrames then l.frameSize else 0)
    && after.validFrames <= before.validFrames + 1
  }

  /** The effect of packet `i` in the sender's own numbering. */
  lemma TakesPacket(l: Layout, s: State, xs: seq<nat>, run: seq<Step>, k: nat, i: nat)
    requires l.Valid() && 6 <= l.pktsPerFrame && l.frameSize <= |s.raw| && !s.synced
    requires Channel(l, xs, run) && FirstSof(l, xs, k) && k <= i < |xs|
    ensures var m, n := l.pktsPerFrame, xs[i];
      StoresIn(l, s, StateAt(l, s, run, i), run[i].pkt, After(l, s, run, i), GotAt(l, s, run, i),
               Mod(n, m), Mod(n + 1, m), Div(n + 1, m) - Div(xs[k], m))
  {
    assert Sent(l, xs[i], run[i].pkt);
    if i == k {
      FirstPacket(l, s, xs, run, k);
      WaitsForSof(l, s, xs, run, k, k);
      StepDivMod(xs[i], 1, l.pktsPerFrame);
    } else {
      NeverDesyncs(l, s, xs, run, k, i);
      TakesNext(l, s, xs, run, k, i);
    }
  }

  /**
   * Slots and frames, in the numbering that starts at the first accepted packet `n0`: packet `n` is
   * copied into slot `n - n0` mod `m` and nothing else changes, and after it the stream has counted
   * the quotient of `n - n0 + 1` by `m` frames (`DivModIs` equates `Mod` and `Div` with `%` and `/`).
   * The call reports a frame exactly when that number grows.
   */
  lemma SlotsAndFrames(l: Layout, s: State, xs: seq<nat>, run: seq<Step>, k: nat, i: nat)
    requires l.Valid() && 6 <= l.pktsPerFrame && l.frameSize <= |s.raw| && !s.synced
    requires Channel(l, xs, run) && FirstSof(l, xs, k) && k <= i < |xs|
    ensures xs[k] <= xs[i]
    ensures var m, n := l.pktsPerFrame, xs[i] - xs[k];
      StoresIn(l, s, StateAt(l, s, run, i), run[i].pkt, After(l, s, run, i), GotAt(l, s, run, i),
               Mod(n, m), Mod(n + 1, m), Div(n + 1, m))
  {
    hide Process, StateAt, After, GotAt, StoresIn, Mod, Div, Sent, ShortLoss;
    TakesPacket(l, s, xs, run, k, i);
    Renumbered(l, s, StateAt(l, s, run, i), run[i].pkt, After(l, s, run, i), GotAt(l, s, run, i), xs[i], xs[k]);
  }

  lemma Renumbered(l: Layout, s: State, before: State, pkt: seq<byte>, after: State, got: nat, n: nat, n0: nat)
    requires l.Valid() && n0 <= n && Mod(n0, l.pktsPerFrame) == 0
    requires var m := l.pktsPerFrame;
      StoresIn(l, s, before, pkt, after, got, Mod(n, m), Mod(n + 1, m), Div(n + 1, m) - Div(n0, m))
    ensures var m := l.pktsPerFrame;
      StoresIn(l, s, before, pkt, after, got, Mod(n - n0, m), Mod(n - n0 + 1, m), Div(n - n0 + 1, m))
  {
    hide Mod, Div, StoresIn;
    ShiftByBlocks(n, n0, l.pktsPerFrame);
    ShiftByBlocks(n + 1, n0, l.pktsPerFrame);
  }

  /**
   * What a report publishes: `validPkts` is the number of packets of the completed frame that
   * arrived, and `timestamp` is that of the last of them, even when the frame's end was lost.
   */
  lemma ReportedFrame(l: Layout, s: State, xs: seq<nat>, run: seq<Step>, k: nat, i: nat)
    requires l.Valid() && 6 <= l.pktsPerFrame && l.frameSize <= |s.raw| && !s.synced
    requires Channel(l, xs, run) && FirstSof(l, xs, k) && k <= i < |xs|
    requires GotAt(l, s, run, i) != 0
    ensures 0 < i && HasMagic(run[i].pkt) && HasMagic(run[i - 1].pkt)
    ensures var m, after := l.pktsPerFrame, After(l, s, run, i);
      var completed := Div(xs[i - 1] + 1, m);
      && after.validPkts == Received(m, xs, k, i + 1, completed)
      && after.timestamp == HdrTimestamp(if Div(xs[i], m) == completed then run[i].pkt else run[i - 1].pkt)
  {
    hide Process, StateAt, After, Mod, Overwrite, Sent;
    if i == k {
      FirstPacket(l, s, xs, run, k);
      assert false;
    }
    NeverDesyncs(l, s, xs, run, k, i);
    TakesNext(l, s, xs, run, k, i);
  }
}
