/**
 * What the raw buffer of a stream holds when a frame is handed out. The stream of the runs in
 * `StreamRuns` may be redirected to another buffer between any two packets; the frame callbacks of
 * the synchronous wrapper do it after every reported frame.
 */
module StreamContents {
  import opened Arith
  import opened PacketStreams
  import opened StreamRuns
  import opened Options

  // ---------------------------------------------------------------- slots

  /** The bytes of slot `slot` in a raw buffer. */
  ghost predicate SlotHolds(l: Layout, raw: seq<byte>, slot: nat, data: seq<byte>) {
    l.SlotStart(slot) + |data| <= |raw| && raw[l.SlotStart(slot)..][..|data|] == data
  }

  lemma OverwriteFills(l: Layout, raw: seq<byte>, slot: nat, data: seq<byte>)
    requires l.SlotStart(slot) + |data| <= |raw|
    ensures SlotHolds(l, Overwrite(raw, l.SlotStart(slot), data), slot, data)
  {
  }

  lemma OverwriteKeepsSlots(l: Layout, raw: seq<byte>, at: nat, new_: seq<byte>, slot: nat, data: seq<byte>)
    requires l.Valid() && at < l.pktsPerFrame && slot < l.pktsPerFrame && at != slot
    requires |new_| <= l.ExpectedSize(at) && |data| <= l.ExpectedSize(slot)
    requires l.frameSize <= |raw| && SlotHolds(l, raw, slot, data)
    ensures l.SlotStart(at) + |new_| <= |raw|
    ensures SlotHolds(l, Overwrite(raw, l.SlotStart(at), new_), slot, data)
  {
    l.SlotFits(at);
    l.SlotFits(slot);
    if at < slot {
      l.SlotsApart(at, slot);
    } else {
      l.SlotsApart(slot, at);
    }
    var r := Overwrite(raw, l.SlotStart(at), new_);
    assert r[l.SlotStart(slot)..][..|data|] == raw[l.SlotStart(slot)..][..|data|];
  }

  /** No redirection follows packets `j .. i - 1`. */
  predicate KeepsBuffer(run: seq<Step>, j: nat, i: nat)
    requires j <= i <= |run|
  {
    forall t :: j <= t < i ==> run[t].buf.None?
  }

  /** Packets `j .. i` of the channel go into other slots than `slot`. */
  ghost predicate Avoids(l: Layout, xs: seq<nat>, j: nat, i: nat, slot: nat)
    requires l.Valid() && j <= i < |xs|
  {
    forall t {:trigger xs[t]} :: j <= t <= i ==> Mod(xs[t], l.pktsPerFrame) != slot
  }

  /** What a slot holds before packet `j` it holds after packet `i`, if only other slots are written between. */
  lemma {:induction false} SlotKept(l: Layout, s: State, xs: seq<nat>, run: seq<Step>, k: nat, j: nat, i: nat,
                                    slot: nat, data: seq<byte>)
    requires l.Valid() && 6 <= l.pktsPerFrame && l.frameSize <= |s.raw| && !s.synced
    requires Channel(l, xs, run) && FirstSof(l, xs, k) && k <= j <= i < |xs|
    requires slot < l.pktsPerFrame && |data| <= l.ExpectedSize(slot)
    requires KeepsBuffer(run, j, i) && Avoids(l, xs, j, i, slot)
    requires SlotHolds(l, StateAt(l, s, run, j).raw, slot, data)
    ensures SlotHolds(l, After(l, s, run, i).raw, slot, data)
  {
    if j < i {
      SlotKept(l, s, xs, run, k, j, i - 1, slot, data);
      NotRedirected(l, s, run, i - 1);
    }
    KeptByPacket(l, s, xs, run, k, i, slot, data);
  }

  lemma NotRedirected(l: Layout, s: State, run: seq<Step>, i: nat)
    requires l.Valid() && Safe(l, s) && Fits(l, run) && i < |run| && run[i].buf.None?
    ensures StateAt(l, s, run, i + 1) == After(l, s, run, i)
  {
  }

  lemma KeptByPacket(l: Layout, s: State, xs: seq<nat>, run: seq<Step>, k: nat, i: nat, slot: nat, data: seq<byte>)
    requires l.Valid() && 6 <= l.pktsPerFrame && l.frameSize <= |s.raw| && !s.synced
    requires Channel(l, xs, run) && FirstSof(l, xs, k) && k <= i < |xs|
    requires slot < l.pktsPerFrame && |data| <= l.ExpectedSize(slot) && Mod(xs[i], l.pktsPerFrame) != slot
    requires SlotHolds(l, StateAt(l, s, run, i).raw, slot, data)
    ensures SlotHolds(l, After(l, s, run, i).raw, slot, data)
  {
    assert Sent(l, xs[i], run[i].pkt);
    TakesPacket(l, s, xs, run, k, i);
    OverwriteKeepsSlots(l, StateAt(l, s, run, i).raw, Mod(xs[i], l.pktsPerFrame), Payload(run[i].pkt), slot, data);
  }

  lemma Between(a: nat, b: nat, c: nat, m: nat)
    requires m > 0 && a <= b <= c && Div(a, m) == Div(c, m)
    ensures Div(b, m) == Div(a, m)
  {
    DivMonotone(a, b, m);
    DivMonotone(b, c, m);
  }

  /** Packets of one frame go into different slots. */
  lemma OtherSlots(l: Layout, xs: seq<nat>, run: seq<Step>, j: nat, i: nat)
    requires l.Valid() && Channel(l, xs, run) && j < i < |xs|
    requires Div(xs[j], l.pktsPerFrame) == Div(xs[i], l.pktsPerFrame)
    ensures Avoids(l, xs, j + 1, i, Mod(xs[j], l.pktsPerFrame))
  {
    forall t | j < t <= i
      ensures Mod(xs[t], l.pktsPerFrame) != Mod(xs[j], l.pktsPerFrame)
    {
      assert xs[j] < xs[t] <= xs[i];
      Between(xs[j], xs[t], xs[i], l.pktsPerFrame);
      SameBlock(xs[j], xs[t], l.pktsPerFrame);
    }
  }

  /**
   * Contents: after packet `i`, every packet of its frame that arrived since the last redirection is
   * in its slot. For a stream that is not redirected that is every packet of the frame that arrived.
   */
  lemma FrameContents(l: Layout, s: State, xs: seq<nat>, run: seq<Step>, k: nat, i: nat, j: nat)
    requires l.Valid() && 6 <= l.pktsPerFrame && l.frameSize <= |s.raw| && !s.synced
    requires Channel(l, xs, run) && FirstSof(l, xs, k) && k <= j <= i < |xs|
    requires Div(xs[j], l.pktsPerFrame) == Div(xs[i], l.pktsPerFrame) && KeepsBuffer(run, j, i)
    ensures HasMagic(run[j].pkt)
    ensures SlotHolds(l, After(l, s, run, i).raw, Mod(xs[j], l.pktsPerFrame), Payload(run[j].pkt))
  {
    hide Times, After, GotAt;
    var slot := Mod(xs[j], l.pktsPerFrame);
    assert Sent(l, xs[j], run[j].pkt);
    TakesPacket(l, s, xs, run, k, j);
    OverwriteFills(l, StateAt(l, s, run, j).raw, slot, Payload(run[j].pkt));
    if j < i {
      NotRedirected(l, s, run, j);
      OtherSlots(l, xs, run, j, i);
      SlotKept(l, s, xs, run, k, j + 1, i, slot, Payload(run[j].pkt));
    }
  }

  /** A slot that no packet has reached since the last redirection holds what the new buffer held. */
  lemma StaleContents(l: Layout, s: State, xs: seq<nat>, run: seq<Step>, k: nat, j: nat, i: nat, slot: nat)
    requires l.Valid() && 6 <= l.pktsPerFrame && l.frameSize <= |s.raw| && !s.synced
    requires Channel(l, xs, run) && FirstSof(l, xs, k) && k <= j < i < |xs|
    requires run[j].buf.Some? && KeepsBuffer(run, j + 1, i)
    requires slot < l.pktsPerFrame && Avoids(l, xs, j + 1, i, slot)
    ensures SlotHolds(l, After(l, s, run, i).raw, slot, SlotOf(l, run[j].buf.value, slot))
  {
    SlotKept(l, s, xs, run, k, j + 1, i, slot, SlotOf(l, run[j].buf.value, slot));
  }

  /** A slot of a buffer. */
  function SlotOf(l: Layout, raw: seq<byte>, slot: nat): (data: seq<byte>)
    requires l.Valid() && slot < l.pktsPerFrame && l.frameSize <= |raw|
    ensures |data| == l.ExpectedSize(slot) && SlotHolds(l, raw, slot, data)
  {
    l.SlotFits(slot);
    raw[l.SlotStart(slot)..][..l.ExpectedSize(slot)]
  }

  // ---------------------------------------------------------------- whole frames

  /** Pieces one after another. */
  function Join(pieces: seq<seq<byte>>): seq<byte> {
    if pieces == [] then [] else Join(pieces[..|pieces| - 1]) + pieces[|pieces| - 1]
  }

  /** The slots of a buffer hold full pieces. */
  ghost predicate HoldsPieces(l: Layout, raw: seq<byte>, pieces: seq<seq<byte>>) {
    forall i :: 0 <= i < |pieces| ==> HoldsPiece(l, raw, i, pieces[i])
  }

  ghost predicate HoldsPiece(l: Layout, raw: seq<byte>, slot: nat, piece: seq<byte>) {
    |piece| == l.ExpectedSize(slot) && SlotHolds(l, raw, slot, piece)
  }

  /** Slots that hold full pieces hold their concatenation. */
  lemma {:induction false} SlotsMakeFrame(l: Layout, raw: seq<byte>, pieces: seq<seq<byte>>)
    requires l.Valid() && |pieces| <= l.pktsPerFrame && HoldsPieces(l, raw, pieces)
    ensures |Join(pieces)| == (if |pieces| == l.pktsPerFrame then l.frameSize else l.SlotStart(|pieces|))
    ensures |Join(pieces)| <= |raw| && raw[..|Join(pieces)|] == Join(pieces)
  {
    if pieces != [] {
      var last := |pieces| - 1;
      AllButLast(l, raw, pieces);
      SlotsMakeFrame(l, raw, pieces[..last]);
      assert HoldsPiece(l, raw, last, pieces[last]);
      Adjoin(raw, l.SlotStart(last), pieces[last]);
    }
  }

  lemma AllButLast(l: Layout, raw: seq<byte>, pieces: seq<seq<byte>>)
    requires pieces != [] && HoldsPieces(l, raw, pieces)
    ensures HoldsPieces(l, raw, pieces[..|pieces| - 1])
  {
    var init := pieces[..|pieces| - 1];
    forall i | 0 <= i < |init|
      ensures HoldsPiece(l, raw, i, init[i])
    {
      assert HoldsPiece(l, raw, i, pieces[i]);
    }
  }

  lemma Adjoin(raw: seq<byte>, at: nat, piece: seq<byte>)
    requires at + |piece| <= |raw| && raw[at..][..|piece|] == piece
    ensures raw[..at + |piece|] == raw[..at] + piece
  {
    assert raw[..at + |piece|] == raw[..at] + raw[at..][..|piece|];
  }

  lemma {:induction false} JoinStarts(pieces: seq<seq<byte>>)
    requires pieces != []
    ensures |pieces[0]| <= |Join(pieces)| && Join(pieces)[..|pieces[0]|] == pieces[0]
  {
    if |pieces| == 1 {
      assert pieces[..0] == [];
    } else {
      JoinStarts(pieces[..|pieces| - 1]);
    }
  }

  /** The payloads of the packets of a run from `i` on. */
  function Payloads(run: seq<Step>, i: nat, n: nat): (r: seq<seq<byte>>)
    requires i + n <= |run| && forall j :: i <= j < i + n ==> HEADER_SIZE <= |run[j].pkt|
    ensures |r| == n
  {
    seq(n, j requires 0 <= j < n => Payload(run[i + j].pkt))
  }

  /** Packets `i ..` are frame `f` of the sender, with none missing and none short. */
  ghost predicate WholeFrame(l: Layout, xs: seq<nat>, run: seq<Step>, i: nat, f: nat)
    requires l.Valid() && |xs| == |run|
  {
    && i + l.pktsPerFrame <= |xs|
    && forall j :: i <= j < i + l.pktsPerFrame ==>
         xs[j] == Times(f, l.pktsPerFrame) + (j - i) && |run[j].pkt| == HEADER_SIZE + l.ExpectedSize(j - i)
  }

  lemma InWholeFrame(l: Layout, xs: seq<nat>, run: seq<Step>, i: nat, f: nat, j: nat)
    requires l.Valid() && |xs| == |run| && WholeFrame(l, xs, run, i, f) && j < l.pktsPerFrame
    ensures Div(xs[i + j], l.pktsPerFrame) == f && Mod(xs[i + j], l.pktsPerFrame) == j
  {
    DivModOfSum(f, j, l.pktsPerFrame);
  }

  /** A packet of a whole frame is in its slot at the end, unless a redirection comes between. */
  lemma WholeFrameHeld(l: Layout, s: State, xs: seq<nat>, run: seq<Step>, k: nat, i: nat, f: nat, j: nat, last: nat)
    requires l.Valid() && 6 <= l.pktsPerFrame && l.frameSize <= |s.raw| && !s.synced
    requires Channel(l, xs, run) && FirstSof(l, xs, k) && k <= i
    requires WholeFrame(l, xs, run, i, f) && i <= j <= last == i + l.pktsPerFrame - 1 && KeepsBuffer(run, j, last)
    ensures HoldsPiece(l, After(l, s, run, last).raw, j - i, Payload(run[j].pkt))
  {
    hide Mod, Times, After;
    InWholeFrame(l, xs, run, i, f, j - i);
    InWholeFrame(l, xs, run, i, f, last - i);
    FrameContents(l, s, xs, run, k, last, j);
  }

  /**
   * A frame that lost nothing, and during which the stream was not redirected, is handed out whole:
   * at its end-of-frame packet the call returns the frame size, and the raw buffer is the
   * concatenation of the frame's payloads.
   */
  lemma LossFreeFrame(l: Layout, s: State, xs: seq<nat>, run: seq<Step>, k: nat, i: nat, f: nat, last: nat)
    requires l.Valid() && 6 <= l.pktsPerFrame && l.frameSize <= |s.raw| && !s.synced
    requires Channel(l, xs, run) && FirstSof(l, xs, k) && k <= i && WholeFrame(l, xs, run, i, f)
    requires last == i + l.pktsPerFrame - 1 && KeepsBuffer(run, i, last)
    ensures GotAt(l, s, run, last) == l.frameSize
    ensures After(l, s, run, last).raw[..l.frameSize] == Join(Payloads(run, i, l.pktsPerFrame))
  {
    var pieces := Payloads(run, i, l.pktsPerFrame);
    forall j | 0 <= j < l.pktsPerFrame
      ensures HoldsPiece(l, After(l, s, run, last).raw, j, pieces[j])
    {
      WholeFrameHeld(l, s, xs, run, k, i, f, i + j, last);
    }
    SlotsMakeFrame(l, After(l, s, run, last).raw, pieces);
    WholeFrameReported(l, s, xs, run, k, i, f, last);
  }

  // ---------------------------------------------------------------- buffers exchanged at every report

  /** A call reports a frame exactly when its packet is the first to end or to pass the frame of the packet before. */
  lemma ReportsIff(l: Layout, s: State, xs: seq<nat>, run: seq<Step>, k: nat, i: nat)
    requires l.Valid() && 6 <= l.pktsPerFrame && l.frameSize <= |s.raw| && !s.synced
    requires Channel(l, xs, run) && FirstSof(l, xs, k) && k <= i < |xs|
    ensures GotAt(l, s, run, i) == 0 || GotAt(l, s, run, i) == l.frameSize
    ensures GotAt(l, s, run, i) != 0 <==> k < i && Div(xs[i - 1] + 1, l.pktsPerFrame) < Div(xs[i] + 1, l.pktsPerFrame)
  {
    if i == k {
      FirstPacket(l, s, xs, run, k);
    } else {
      NeverDesyncs(l, s, xs, run, k, i);
      TakesNext(l, s, xs, run, k, i);
    }
  }

  /**
   * A frame whose end was lost is handed out when a packet `i` of a later frame arrives. Each of its
   * packets that arrived since the last redirection is in its slot, except that packet `i` is in the
   * slot it has in its own frame.
   */
  lemma LostEndContents(l: Layout, s: State, xs: seq<nat>, run: seq<Step>, k: nat, i: nat, j: nat)
    requires l.Valid() && 6 <= l.pktsPerFrame && l.frameSize <= |s.raw| && !s.synced
    requires Channel(l, xs, run) && FirstSof(l, xs, k) && k <= j < i < |xs|
    requires Div(xs[j], l.pktsPerFrame) == Div(xs[i - 1] + 1, l.pktsPerFrame) < Div(xs[i], l.pktsPerFrame)
    requires KeepsBuffer(run, j, i)
    ensures HasMagic(run[i].pkt) && HasMagic(run[j].pkt)
    ensures GotAt(l, s, run, i) == l.frameSize
    ensures SlotHolds(l, After(l, s, run, i).raw, Mod(xs[i], l.pktsPerFrame), Payload(run[i].pkt))
    ensures Mod(xs[j], l.pktsPerFrame) != Mod(xs[i], l.pktsPerFrame) ==>
              SlotHolds(l, After(l, s, run, i).raw, Mod(xs[j], l.pktsPerFrame), Payload(run[j].pkt))
  {
    ReportsIff(l, s, xs, run, k, i);
    DivMonotone(xs[i], xs[i] + 1, l.pktsPerFrame);
    FrameContents(l, s, xs, run, k, i, i);
    assert xs[j] <= xs[i - 1];
    Between(xs[j], xs[i - 1], xs[i - 1] + 1, l.pktsPerFrame);
    FrameContents(l, s, xs, run, k, i - 1, j);
    NotRedirected(l, s, run, i - 1);
    if Mod(xs[j], l.pktsPerFrame) != Mod(xs[i], l.pktsPerFrame) {
      assert Sent(l, xs[j], run[j].pkt);
      KeptByPacket(l, s, xs, run, k, i, Mod(xs[j], l.pktsPerFrame), Payload(run[j].pkt));
    }
  }

  /** A whole frame ends with its last packet. */
  lemma FrameEnd(l: Layout, xs: seq<nat>, run: seq<Step>, i: nat, f: nat, j: nat)
    requires l.Valid() && |xs| == |run| && WholeFrame(l, xs, run, i, f) && j < l.pktsPerFrame
    ensures Div(xs[i + j] + 1, l.pktsPerFrame) == if j < l.pktsPerFrame - 1 then f else f + 1
  {
    InWholeFrame(l, xs, run, i, f, j);
    StepDivMod(xs[i + j], 1, l.pktsPerFrame);
  }

  /** If the packet before its first is missing, it begins after a frame that has not ended. */
  lemma FrameStart(l: Layout, xs: seq<nat>, run: seq<Step>, i: nat, f: nat)
    requires l.Valid() && Channel(l, xs, run) && WholeFrame(l, xs, run, i, f) && i > 0
    ensures Div(xs[i - 1] + 1, l.pktsPerFrame) < f <==> xs[i - 1] + 1 != xs[i]
  {
    assert xs[i - 1] < xs[i] == Times(f, l.pktsPerFrame);
    BelowBlock(xs[i - 1] + 1, f, l.pktsPerFrame);
  }

  lemma BelowBlock(n: nat, q: nat, m: nat)
    requires m > 0
    ensures n < Times(q, m) <==> Div(n, m) < q
  {
    DivModSum(n, m);
    if Div(n, m) < q {
      TimesMonotone(Div(n, m) + 1, q, m);
    } else {
      TimesMonotone(q, Div(n, m), m);
    }
  }

  /** A whole frame is reported at its end-of-frame packet. */
  lemma WholeFrameReported(l: Layout, s: State, xs: seq<nat>, run: seq<Step>, k: nat, i: nat, f: nat, last: nat)
    requires l.Valid() && 6 <= l.pktsPerFrame && l.frameSize <= |s.raw| && !s.synced
    requires Channel(l, xs, run) && FirstSof(l, xs, k) && k <= i && WholeFrame(l, xs, run, i, f)
    requires last == i + l.pktsPerFrame - 1
    ensures GotAt(l, s, run, last) == l.frameSize && Div(xs[last - 1] + 1, l.pktsPerFrame) == f
  {
    ReportsIff(l, s, xs, run, k, last);
    FrameEnd(l, xs, run, i, f, l.pktsPerFrame - 1);
    FrameEnd(l, xs, run, i, f, l.pktsPerFrame - 2);
  }

  /** The frame callback redirects the stream at every report, and nothing else does. */
  ghost predicate RedirectsAtReports(l: Layout, s: State, run: seq<Step>)
    requires l.Valid() && Safe(l, s) && Fits(l, run)
  {
    forall i :: 0 <= i < |run| ==> RedirectsAt(l, s, run, i)
  }

  ghost predicate RedirectsAt(l: Layout, s: State, run: seq<Step>, i: nat)
    requires l.Valid() && Safe(l, s) && Fits(l, run) && i < |run|
  {
    run[i].buf.Some? <==> GotAt(l, s, run, i) != 0
  }

  /** Whether the packet before the first one of a frame arrived, or there is none before it. */
  predicate EnteredInTime(xs: seq<nat>, k: nat, i: nat)
    requires k <= i < |xs|
  {
    i == k || xs[i - 1] + 1 == xs[i]
  }

  /** Of the packets of a whole frame only the first can be followed by a redirection before the frame ends. */
  lemma WhereRedirected(l: Layout, s: State, xs: seq<nat>, run: seq<Step>, k: nat, i: nat, f: nat)
    requires l.Valid() && 6 <= l.pktsPerFrame && l.frameSize <= |s.raw| && !s.synced
    requires Channel(l, xs, run) && FirstSof(l, xs, k) && k <= i && WholeFrame(l, xs, run, i, f)
    requires RedirectsAtReports(l, s, run)
    ensures KeepsBuffer(run, i + 1, i + l.pktsPerFrame - 1)
    ensures run[i].buf.None? <==> EnteredInTime(xs, k, i)
  {
    hide Div, Times, GotAt;
    ReportsIff(l, s, xs, run, k, i);
    assert RedirectsAt(l, s, run, i);
    FrameEnd(l, xs, run, i, f, 0);
    if i > k {
      FrameStart(l, xs, run, i, f);
    }
    forall j | i + 1 <= j < i + l.pktsPerFrame - 1
      ensures run[j].buf.None?
    {
      ReportsIff(l, s, xs, run, k, j);
      assert RedirectsAt(l, s, run, j);
      FrameEnd(l, xs, run, i, f, j - i);
      FrameEnd(l, xs, run, i, f, j - 1 - i);
    }
  }

  /** What the slots of a whole frame hold when it is handed out. */
  function Pieces(l: Layout, xs: seq<nat>, run: seq<Step>, k: nat, i: nat): seq<seq<byte>>
    requires l.Valid() && |xs| == |run| && Fits(l, run) && k <= i && i + l.pktsPerFrame <= |xs|
    requires forall j :: i <= j < i + l.pktsPerFrame ==> HEADER_SIZE <= |run[j].pkt|
    requires run[i].buf.None? <==> EnteredInTime(xs, k, i)
  {
    var payloads := Payloads(run, i, l.pktsPerFrame);
    if EnteredInTime(xs, k, i) then payloads else payloads[0 := SlotOf(l, run[i].buf.value, 0)]
  }

  /**
   * What is handed out for a frame that lost nothing, by a stream whose buffer is exchanged at every
   * report. If the packet before the frame was lost, the frame's first packet is the one that
   * completes the frame before it: it goes into the old buffer, and the new one keeps in slot 0 what
   * it held. The published packet count is that of a complete frame all the same.
   */
  lemma WholeFrameHandedOut(l: Layout, s: State, xs: seq<nat>, run: seq<Step>, k: nat, i: nat, f: nat, last: nat)
    requires l.Valid() && 6 <= l.pktsPerFrame && l.frameSize <= |s.raw| && !s.synced
    requires Channel(l, xs, run) && FirstSof(l, xs, k) && k <= i && WholeFrame(l, xs, run, i, f)
    requires RedirectsAtReports(l, s, run) && last == i + l.pktsPerFrame - 1
    ensures run[i].buf.None? <==> EnteredInTime(xs, k, i)
    ensures GotAt(l, s, run, last) == l.frameSize && After(l, s, run, last).validPkts == l.pktsPerFrame
    ensures After(l, s, run, last).raw[..l.frameSize] == Join(Pieces(l, xs, run, k, i))
  {
    WhereRedirected(l, s, xs, run, k, i, f);
    PiecesHeld(l, s, xs, run, k, i, f, last);
    SlotsMakeFrame(l, After(l, s, run, last).raw, Pieces(l, xs, run, k, i));
    WholeFrameReported(l, s, xs, run, k, i, f, last);
    WholeFrameCounts(l, s, xs, run, k, i, f, last);
  }

  lemma PiecesHeld(l: Layout, s: State, xs: seq<nat>, run: seq<Step>, k: nat, i: nat, f: nat, last: nat)
    requires l.Valid() && 6 <= l.pktsPerFrame && l.frameSize <= |s.raw| && !s.synced
    requires Channel(l, xs, run) && FirstSof(l, xs, k) && k <= i && WholeFrame(l, xs, run, i, f)
    requires last == i + l.pktsPerFrame - 1
    requires KeepsBuffer(run, i + 1, last) && (run[i].buf.None? <==> EnteredInTime(xs, k, i))
    ensures HoldsPieces(l, After(l, s, run, last).raw, Pieces(l, xs, run, k, i))
  {
    var pieces := Pieces(l, xs, run, k, i);
    forall j | 0 <= j < l.pktsPerFrame
      ensures HoldsPiece(l, After(l, s, run, last).raw, j, pieces[j])
    {
      if j > 0 || EnteredInTime(xs, k, i) {
        WholeFrameHeld(l, s, xs, run, k, i, f, i + j, last);
      } else {
        FirstPieceStale(l, s, xs, run, k, i, f, last);
      }
    }
  }

  lemma FirstPieceStale(l: Layout, s: State, xs: seq<nat>, run: seq<Step>, k: nat, i: nat, f: nat, last: nat)
    requires l.Valid() && 6 <= l.pktsPerFrame && l.frameSize <= |s.raw| && !s.synced
    requires Channel(l, xs, run) && FirstSof(l, xs, k) && k <= i && WholeFrame(l, xs, run, i, f)
    requires last == i + l.pktsPerFrame - 1 && KeepsBuffer(run, i + 1, last) && run[i].buf.Some?
    ensures HoldsPiece(l, After(l, s, run, last).raw, 0, SlotOf(l, run[i].buf.value, 0))
  {
    InWholeFrame(l, xs, run, i, f, 0);
    InWholeFrame(l, xs, run, i, f, last - i);
    OtherSlots(l, xs, run, i, last);
    StaleContents(l, s, xs, run, k, i, last, 0);
  }

  /** The stream counts all packets of a whole frame. */
  lemma WholeFrameCounts(l: Layout, s: State, xs: seq<nat>, run: seq<Step>, k: nat, i: nat, f: nat, last: nat)
    requires l.Valid() && 6 <= l.pktsPerFrame && l.frameSize <= |s.raw| && !s.synced
    requires Channel(l, xs, run) && FirstSof(l, xs, k) && k <= i && WholeFrame(l, xs, run, i, f)
    requires last == i + l.pktsPerFrame - 1
    ensures After(l, s, run, last).validPkts == l.pktsPerFrame
  {
    ReceivedInFrame(l, xs, run, k, i, f, l.pktsPerFrame);
    WholeFrameReported(l, s, xs, run, k, i, f, last);
    ReportedFrame(l, s, xs, run, k, last);
    assert last + 1 == i + l.pktsPerFrame;
  }

  lemma {:induction false} ReceivedInFrame(l: Layout, xs: seq<nat>, run: seq<Step>, k: nat, i: nat, f: nat, n: nat)
    requires l.Valid() && Channel(l, xs, run) && k <= i && WholeFrame(l, xs, run, i, f) && n <= l.pktsPerFrame
    ensures Received(l.pktsPerFrame, xs, k, i + n, f) == n
  {
    if n > 0 {
      ReceivedInFrame(l, xs, run, k, i, f, n - 1);
      InWholeFrame(l, xs, run, i, f, n - 1);
    } else {
      forall j | k <= j < i
        ensures Div(xs[j], l.pktsPerFrame) < f
      {
        assert xs[j] < xs[i] == Times(f, l.pktsPerFrame);
        BelowBlock(xs[j], f, l.pktsPerFrame);
      }
      NoneBeyond(l.pktsPerFrame, xs, k, i, f);
    }
  }

  /** The pieces are the payloads exactly when no redirection came in between, or the new buffer held the same. */
  lemma PiecesArePayloads(l: Layout, xs: seq<nat>, run: seq<Step>, k: nat, i: nat)
    requires l.Valid() && |xs| == |run| && Fits(l, run) && k <= i && i + l.pktsPerFrame <= |xs|
    requires forall j :: i <= j < i + l.pktsPerFrame ==> HEADER_SIZE <= |run[j].pkt|
    requires |Payload(run[i].pkt)| == l.ExpectedSize(0)
    requires run[i].buf.None? <==> EnteredInTime(xs, k, i)
    ensures Join(Pieces(l, xs, run, k, i)) == Join(Payloads(run, i, l.pktsPerFrame)) <==>
              EnteredInTime(xs, k, i) || SlotOf(l, run[i].buf.value, 0) == Payload(run[i].pkt)
  {
    if !EnteredInTime(xs, k, i) {
      JoinStarts(Pieces(l, xs, run, k, i));
      JoinStarts(Payloads(run, i, l.pktsPerFrame));
      if SlotOf(l, run[i].buf.value, 0) == Payload(run[i].pkt) {
        assert Pieces(l, xs, run, k, i) == Payloads(run, i, l.pktsPerFrame);
      }
    }
  }

  /** Exactly when it is the frame that was sent. */
  lemma HandedOutWholeIff(l: Layout, s: State, xs: seq<nat>, run: seq<Step>, k: nat, i: nat, f: nat, last: nat)
    requires l.Valid() && 6 <= l.pktsPerFrame && l.frameSize <= |s.raw| && !s.synced
    requires Channel(l, xs, run) && FirstSof(l, xs, k) && k <= i && WholeFrame(l, xs, run, i, f)
    requires RedirectsAtReports(l, s, run) && last == i + l.pktsPerFrame - 1
    ensures run[i].buf.None? <==> EnteredInTime(xs, k, i)
    ensures After(l, s, run, last).raw[..l.frameSize] == Join(Payloads(run, i, l.pktsPerFrame)) <==>
              EnteredInTime(xs, k, i) || SlotOf(l, run[i].buf.value, 0) == Payload(run[i].pkt)
  {
    WholeFrameHandedOut(l, s, xs, run, k, i, f, last);
    assert |run[i].pkt| == HEADER_SIZE + l.ExpectedSize(i - i);
    PiecesArePayloads(l, xs, run, k, i);
  }

  // ---------------------------------------------------------------- the inputs where it is not

  /**
   * The sender's first two frames, of which only the packet that ends the first is lost; every packet
   * is full; when the calls for the packet after the lost one and for the last packet have reported a
   * frame, the stream is redirected; and what the first of these buffers holds in slot 0 is not the
   * payload that belongs there.
   */
  ghost predicate LosesFirstEnd(l: Layout, s: State, xs: seq<nat>, run: seq<Step>) {
    var m := l.pktsPerFrame;
    && l.Valid() && 6 <= m && l.frameSize <= |s.raw| && !s.synced
    && |xs| == |run| == m + m - 1 && Fits(l, run)
    && (forall i {:trigger xs[i]} :: 0 <= i < |xs| ==> xs[i] == if i < m - 1 then i else i + 1)
    && (forall i :: 0 <= i < |xs| ==> FullPacket(l, xs[i], run[i].pkt))
    && (forall i :: 0 <= i < |xs| ==> (run[i].buf.Some? <==> i == m - 1 || i == m + m - 2))
    && SlotOf(l, run[m - 1].buf.value, 0) != Payload(run[m - 1].pkt)
  }

  ghost predicate FullPacket(l: Layout, n: nat, pkt: seq<byte>)
    requires l.Valid()
  {
    Sent(l, n, pkt) && |Payload(pkt)| == l.ExpectedSize(Mod(n, l.pktsPerFrame))
  }

  lemma ExampleChannel(l: Layout, s: State, xs: seq<nat>, run: seq<Step>)
    requires LosesFirstEnd(l, s, xs, run)
    ensures Channel(l, xs, run) && FirstSof(l, xs, 0)
  {
    forall i {:trigger Sent(l, xs[i], run[i].pkt)} | 0 <= i < |xs|
      ensures Sent(l, xs[i], run[i].pkt)
    {
      assert FullPacket(l, xs[i], run[i].pkt);
    }
  }

  lemma ExampleFrame(l: Layout, s: State, xs: seq<nat>, run: seq<Step>)
    requires LosesFirstEnd(l, s, xs, run)
    ensures WholeFrame(l, xs, run, l.pktsPerFrame - 1, 1)
  {
    var m := l.pktsPerFrame;
    TimesIsProduct(1, m);
    forall j | m - 1 <= j < m + m - 1
      ensures xs[j] == Times(1, m) + (j - (m - 1)) && |run[j].pkt| == HEADER_SIZE + l.ExpectedSize(j - (m - 1))
    {
      assert FullPacket(l, xs[j], run[j].pkt);
      DivModOfSum(1, j - (m - 1), m);
    }
  }

  lemma FrameOf(n: nat, m: nat)
    requires m > 0 && n <= m + m
    ensures Div(n, m) == if n < m then 0 else if n < m + m then 1 else 2
  {
    if n >= m {
      assert Div(n, m) == Div(n - m, m) + 1;
    }
  }

  lemma ExampleRedirects(l: Layout, s: State, xs: seq<nat>, run: seq<Step>)
    requires LosesFirstEnd(l, s, xs, run)
    ensures RedirectsAtReports(l, s, run)
  {
    ExampleChannel(l, s, xs, run);
    forall i | 0 <= i < |run|
      ensures RedirectsAt(l, s, run, i)
    {
      ReportsIff(l, s, xs, run, 0, i);
      FrameOf(xs[i] + 1, l.pktsPerFrame);
      if i > 0 {
        FrameOf(xs[i - 1] + 1, l.pktsPerFrame);
      }
    }
  }

  /** All packets of the second frame arrive and are counted, and it is handed out with a stale slot. */
  lemma StaleFrame(l: Layout, s: State, xs: seq<nat>, run: seq<Step>, first: nat, last: nat)
    requires LosesFirstEnd(l, s, xs, run) && first == l.pktsPerFrame - 1 && last == first + l.pktsPerFrame - 1
    ensures WholeFrame(l, xs, run, first, 1)
    ensures GotAt(l, s, run, last) == l.frameSize && After(l, s, run, last).validPkts == l.pktsPerFrame
    ensures After(l, s, run, last).raw[..l.frameSize] != Join(Payloads(run, first, l.pktsPerFrame))
  {
    hide Div, Mod, Times, GotAt, After, Payloads, Pieces, WholeFrame, SlotOf, EnteredInTime, KeepsBuffer, Sent, Process;
    ExampleChannel(l, s, xs, run);
    ExampleFrame(l, s, xs, run);
    ExampleRedirects(l, s, xs, run);
    WholeFrameHandedOut(l, s, xs, run, 0, first, 1, last);
    HandedOutWholeIff(l, s, xs, run, 0, first, 1, last);
  }

  // Such a run exists for every layout: packets of ones, and buffers of zeros.

  function FullSent(l: Layout, n: nat): (pkt: seq<byte>)
    requires l.Valid()
    ensures |pkt| == HEADER_SIZE + l.ExpectedSize(Mod(n, l.pktsPerFrame))
  {
    [0x52, 0x42, 0, l.FlagOf(Mod(n, l.pktsPerFrame)), 0, n % 256, 0, 0, 0, 0, 0, 0]
    + seq(l.ExpectedSize(Mod(n, l.pktsPerFrame)), _ => 1)
  }

  lemma FullSentIsFull(l: Layout, n: nat)
    requires l.Valid()
    ensures FullPacket(l, n, FullSent(l, n))
  {
    hide Mod;
  }

  function Zeros(l: Layout): (buf: seq<byte>)
    ensures |buf| == l.frameSize
  {
    seq(l.frameSize, _ => 0)
  }

  /** Packet `i` of the example, if the `m - 1`-st of the sender is lost. */
  function ExampleStep(l: Layout, i: nat): Step
    requires l.Valid()
  {
    var m := l.pktsPerFrame;
    Step(FullSent(l, if i < m - 1 then i else i + 1), if i == m - 1 || i == m + m - 2 then Some(Zeros(l)) else None)
  }

  lemma ZerosAreNotOnes(l: Layout, n: nat)
    requires l.Valid() && Mod(n, l.pktsPerFrame) == 0
    ensures SlotOf(l, Zeros(l), 0) != Payload(FullSent(l, n))
  {
    hide Mod;
    l.SlotFits(0);
    assert Payload(FullSent(l, n))[0] == 1;
    assert SlotOf(l, Zeros(l), 0)[0] == 0;
  }

  lemma StaleFrameHappens(l: Layout, s: State) returns (xs: seq<nat>, run: seq<Step>)
    requires l.Valid() && 6 <= l.pktsPerFrame && l.frameSize <= |s.raw| && !s.synced
    ensures LosesFirstEnd(l, s, xs, run)
  {
    hide FullSent, FullPacket, SlotOf, Zeros, Mod;
    var m := l.pktsPerFrame;
    xs := seq(m + m - 1, i => if i < m - 1 then i else i + 1);
    run := seq(m + m - 1, i requires 0 <= i < m + m - 1 => ExampleStep(l, i));
    forall i | 0 <= i < |xs|
      ensures FullPacket(l, xs[i], run[i].pkt)
    {
      FullSentIsFull(l, xs[i]);
    }
    FrameStarts(m);
    ZerosAreNotOnes(l, m);
  }

  lemma FrameStarts(m: nat)
    requires m > 0
    ensures Mod(m, m) == 0
  {
  }
}
