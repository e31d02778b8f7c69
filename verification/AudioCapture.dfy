/**
 * Runs of audio windows, from the device to the reader: what the callback receives over a whole
 * run, what the capture program writes, and what the reader recovers from its blocks.
 */
module AudioCapture {
  import opened AudioWindows

  const BLOCK := 512   // 128 frames of four samples

  /** The packets of the first `n` windows. */
  function Stream(ws: seq<Window>, n: nat): seq<Packet>
    requires n <= |ws|
  {
    if n == 0 then [] else Stream(ws, n - 1) + Packets(ws[n - 1])
  }

  /** Complete windows, of which consecutive ones have different numbers. */
  ghost predicate Windows(ws: seq<Window>) {
    && (forall i :: 0 <= i < |ws| ==> Complete(ws[i]))
    && forall i :: 0 < i < |ws| ==> NewId(ws, i)
  }

  predicate NewId(ws: seq<Window>, i: nat)
    requires 0 < i < |ws|
  {
    ws[i].id != ws[i - 1].id
  }

  /** Running one packet sequence after another. */
  lemma {:induction false} Append(s: State, ps: seq<Packet>, qs: seq<Packet>, i: nat)
    requires i <= |qs|
    ensures StateAt(s, ps + qs, |ps| + i) == StateAt(StateAt(s, ps, |ps|), qs, i)
    ensures Delivered(s, ps + qs, |ps| + i) == Delivered(s, ps, |ps|) + Delivered(StateAt(s, ps, |ps|), qs, i)
  {
    if i == 0 {
      Prefix(s, ps, qs, |ps|);
    } else {
      Append(s, ps, qs, i - 1);
      assert (ps + qs)[|ps| + i - 1] == qs[i - 1];
    }
  }

  lemma {:induction false} Prefix(s: State, ps: seq<Packet>, qs: seq<Packet>, i: nat)
    requires i <= |ps|
    ensures StateAt(s, ps + qs, i) == StateAt(s, ps, i) && Delivered(s, ps + qs, i) == Delivered(s, ps, i)
  {
    if i > 0 {
      Prefix(s, ps, qs, i - 1);
      assert (ps + qs)[i - 1] == ps[i - 1];
    }
  }

  function Final(s: State, ps: seq<Packet>): State {
    StateAt(s, ps, |ps|)
  }

  function AllDelivered(s: State, ps: seq<Packet>): seq<Snapshot> {
    Delivered(s, ps, |ps|)
  }

  lemma AppendAll(s: State, ps: seq<Packet>, qs: seq<Packet>)
    ensures Final(s, ps + qs) == Final(Final(s, ps), qs)
    ensures AllDelivered(s, ps + qs) == AllDelivered(s, ps) + AllDelivered(Final(s, ps), qs)
  {
    Append(s, ps, qs, |qs|);
  }

  function StateAfter(ws: seq<Window>, n: nat): State
    requires n <= |ws|
  {
    Final(Init(), Stream(ws, n))
  }

  function DeliveredAfter(ws: seq<Window>, n: nat): seq<Snapshot>
    requires n <= |ws|
  {
    AllDelivered(Init(), Stream(ws, n))
  }

  function Images(ws: seq<Window>, n: nat): (r: seq<Snapshot>)
    requires n <= |ws|
    ensures |r| == n
  {
    if n == 0 then [] else Images(ws, n - 1) + [Image(ws[n - 1])]
  }

  /** The callback that precedes the first window carries the silence of the start. */
  function Lead(ws: seq<Window>): seq<Snapshot>
    requires ws != []
  {
    if ws[0].id != 0 then [Quiet()] else []
  }

  lemma OneMoreWindow(ws: seq<Window>, n: nat)
    requires n < |ws| && Complete(ws[n])
    ensures var before, after := StateAfter(ws, n), StateAfter(ws, n + 1);
      && after == State(ws[n].id, Image(ws[n]))
      && DeliveredAfter(ws, n + 1) ==
           DeliveredAfter(ws, n) + (if ws[n].id != before.inWindow then [before.now] else [])
  {
    AppendAll(Init(), Stream(ws, n), Packets(ws[n]));
    WindowTaken(StateAfter(ws, n), ws[n]);
  }

  /**
   * Each window's callback, fired by the next change of window, carries exactly the samples of
   * that window, whatever the order of its packets; the last window is still in the buffers.
   */
  lemma {:induction false} RunDelivers(ws: seq<Window>, n: nat)
    requires Windows(ws) && 0 < n <= |ws|
    ensures DeliveredAfter(ws, n) == Lead(ws) + Images(ws, n - 1)
    ensures StateAfter(ws, n) == State(ws[n - 1].id, Image(ws[n - 1]))
  {
    hide DeliveredAfter, StateAfter;
    if n == 1 {
      FirstWindow(ws);
    } else {
      RunDelivers(ws, n - 1);
      NextWindow(ws, n - 1);
    }
  }

  lemma FirstWindow(ws: seq<Window>)
    requires ws != [] && Windows(ws)
    ensures DeliveredAfter(ws, 1) == Lead(ws) + Images(ws, 0)
    ensures StateAfter(ws, 1) == State(ws[0].id, Image(ws[0]))
  {
    OneMoreWindow(ws, 0);
    assert StateAfter(ws, 0) == Init() && DeliveredAfter(ws, 0) == [];
    assert Lead(ws) + Images(ws, 0) == Lead(ws);
  }

  lemma NextWindow(ws: seq<Window>, n: nat)
    requires Windows(ws) && 0 < n < |ws|
    requires DeliveredAfter(ws, n) == Lead(ws) + Images(ws, n - 1)
    requires StateAfter(ws, n) == State(ws[n - 1].id, Image(ws[n - 1]))
    ensures DeliveredAfter(ws, n + 1) == Lead(ws) + Images(ws, n)
    ensures StateAfter(ws, n + 1) == State(ws[n].id, Image(ws[n]))
  {
    OneMoreWindow(ws, n);
    assert NewId(ws, n);
    Assoc(Lead(ws), Images(ws, n - 1), [Image(ws[n - 1])]);
  }

  // ---------------------------------------------------------------- the capture program

  /** One frame of four microphones after another. */
  function Interleave(s: Snapshot): (r: seq<int>)
    ensures |r| == MICS * WINDOW
  {
    seq(MICS * WINDOW, i requires 0 <= i < MICS * WINDOW => s.Mic(i % MICS)[i / MICS])
  }

  /** `in_callback`: `out` is the standard output so far. */
  method InCallback(s: Snapshot, out: seq<int>) returns (out': seq<int>)
    ensures out' == out + Interleave(s)
  {
    ghost var all := Interleave(s);
    out' := out;
    for i := 0 to WINDOW
      invariant out' == out + all[..MICS * i]
    {
      var frame := [s.mic1[i], s.mic2[i], s.mic3[i], s.mic4[i]];
      assert all[..MICS * (i + 1)] == all[..MICS * i] + frame;
      out' := out' + frame;
    }
    assert all[..MICS * WINDOW] == all;
  }

  function Captured(ss: seq<Snapshot>, n: nat): seq<int>
    requires n <= |ss|
  {
    if n == 0 then [] else Captured(ss, n - 1) + Interleave(ss[n - 1])
  }

  method Capture(ss: seq<Snapshot>) returns (out: seq<int>)
    ensures out == Captured(ss, |ss|)
  {
    out := [];
    for i := 0 to |ss|
      invariant out == Captured(ss, i)
    {
      out := InCallback(ss[i], out);
    }
  }

  // ---------------------------------------------------------------- the reader

  /** Column `k` of the data reshaped to rows of four. */
  function Column(data: seq<int>, k: nat): (r: seq<int>)
    requires |data| % MICS == 0 && k < MICS
    ensures |r| == |data| / MICS
  {
    seq(|data| / MICS, i requires 0 <= i < |data| / MICS => data[MICS * i + k])
  }

  lemma ColumnOfSum(a: seq<int>, b: seq<int>, k: nat)
    requires |a| % MICS == 0 && |b| % MICS == 0 && k < MICS
    ensures |a + b| % MICS == 0 && Column(a + b, k) == Column(a, k) + Column(b, k)
  {
    var na := |a| / MICS;
    assert |a| == MICS * na;
    assert |a + b| / MICS == na + |b| / MICS;
    forall i | 0 <= i < |a + b| / MICS ensures Column(a + b, k)[i] == (Column(a, k) + Column(b, k))[i] {
    }
  }

  lemma ColumnOfInterleave(s: Snapshot, k: nat)
    requires k < MICS
    ensures Column(Interleave(s), k) == s.Mic(k)
  {
    forall i | 0 <= i < WINDOW ensures Column(Interleave(s), k)[i] == s.Mic(k)[i] {
      assert (MICS * i + k) % MICS == k && (MICS * i + k) / MICS == i;
    }
  }

  /** The reader's loop: whole blocks of 128 frames until the input is too short for one. */
  method ReadAll(input: seq<int>) returns (mic1: seq<int>, mic4: seq<int>)
    ensures var n := |input| - |input| % BLOCK;
      n % MICS == 0 && mic1 == Column(input[..n], 0) && mic4 == Column(input[..n], 3)
  {
    var pos := 0;
    ghost var blocks := 0;
    mic1, mic4 := [], [];
    while pos + BLOCK <= |input|
      invariant 0 <= pos <= |input| && pos == BLOCK * blocks
      invariant pos % MICS == 0 && mic1 == Column(input[..pos], 0) && mic4 == Column(input[..pos], 3)
      decreases |input| - pos
    {
      var m1, m4 := ReadBlock(input, pos);
      mic1 := mic1 + m1;
      mic4 := mic4 + m4;
      pos := pos + BLOCK;
      blocks := blocks + 1;
    }
    assert |input| % BLOCK == |input| - pos;
  }

  method ReadBlock(input: seq<int>, pos: nat) returns (mic1: seq<int>, mic4: seq<int>)
    requires pos + BLOCK <= |input| && pos % MICS == 0
    ensures (pos + BLOCK) % MICS == 0
    ensures Column(input[..pos + BLOCK], 0) == Column(input[..pos], 0) + mic1
    ensures Column(input[..pos + BLOCK], 3) == Column(input[..pos], 3) + mic4
  {
    var data := input[pos..pos + BLOCK];
    assert input[..pos + BLOCK] == input[..pos] + data;
    ColumnOfSum(input[..pos], data, 0);
    ColumnOfSum(input[..pos], data, 3);
    mic1 := Column(data, 0);
    mic4 := Column(data, 3);
  }

  /** What a microphone recorded over a run. */
  function Recorded(ss: seq<Snapshot>, k: nat, n: nat): seq<int>
    requires k < MICS && n <= |ss|
  {
    if n == 0 then [] else Recorded(ss, k, n - 1) + ss[n - 1].Mic(k)
  }

  /** The captured stream has whole blocks only, and its columns are the recordings. */
  lemma {:induction false} ColumnsAreRecordings(ss: seq<Snapshot>, k: nat, n: nat)
    requires k < MICS && n <= |ss|
    ensures |Captured(ss, n)| % BLOCK == 0 && |Captured(ss, n)| % MICS == 0
    ensures Column(Captured(ss, n), k) == Recorded(ss, k, n)
  {
    if n > 0 {
      ColumnsAreRecordings(ss, k, n - 1);
      ColumnOfSum(Captured(ss, n - 1), Interleave(ss[n - 1]), k);
      ColumnOfInterleave(ss[n - 1], k);
    }
  }

  /** The samples of channels `c` and `c + 1` of each of the first `n` windows. */
  function ChannelPair(ws: seq<Window>, c: nat, n: nat): seq<int>
    requires 1 <= c < 9 && n <= |ws|
  {
    if n == 0 then [] else ChannelPair(ws, c, n - 1) + (ws[n - 1].data(c) + ws[n - 1].data(c + 1))
  }

  lemma Assoc<T>(a: seq<T>, b: seq<T>, c: seq<T>)
    ensures a + (b + c) == (a + b) + c
  {
  }

  lemma {:induction false} RecordedSum(ss: seq<Snapshot>, a: seq<Snapshot>, b: seq<Snapshot>, k: nat, n: nat)
    requires k < MICS && n <= |b| && ss == a + b
    ensures Recorded(ss, k, |a| + n) == Recorded(a, k, |a|) + Recorded(b, k, n)
  {
    if n == 0 {
      RecordedPrefix(ss, a, k, |a|);
    } else {
      RecordedSum(ss, a, b, k, n - 1);
      assert ss[|a| + n - 1] == b[n - 1];
      Assoc(Recorded(a, k, |a|), Recorded(b, k, n - 1), b[n - 1].Mic(k));
    }
  }

  lemma {:induction false} RecordedPrefix(ss: seq<Snapshot>, a: seq<Snapshot>, k: nat, n: nat)
    requires k < MICS && n <= |a| <= |ss| && ss[..|a|] == a
    ensures Recorded(ss, k, n) == Recorded(a, k, n)
  {
    if n > 0 {
      RecordedPrefix(ss, a, k, n - 1);
      assert ss[n - 1] == a[n - 1];
    }
  }

  lemma {:induction false} RecordedImages(ws: seq<Window>, k: nat, n: nat)
    requires k < MICS && n <= |ws|
    ensures Recorded(Images(ws, n), k, n) == ChannelPair(ws, 2 * k + 2, n)
  {
    hide Image;
    if n > 0 {
      RecordedImages(ws, k, n - 1);
      RecordedPrefix(Images(ws, n), Images(ws, n - 1), k, n - 1);
      ImageMic(ws[n - 1], k);
    }
  }

  lemma ImageMic(w: Window, k: nat)
    requires k < MICS
    ensures Image(w).Mic(k) == w.data(2 * k + 2) + w.data(2 * k + 3)
  {
  }

  lemma RecordedRun(ws: seq<Window>, k: nat)
    requires ws != [] && Windows(ws) && k < MICS
    ensures var ss := DeliveredAfter(ws, |ws|);
      Recorded(ss, k, |ss|) == (if ws[0].id != 0 then Silence(WINDOW) else []) + ChannelPair(ws, 2 * k + 2, |ws| - 1)
  {
    hide Recorded, ChannelPair, Images, Stream, StateAt, Windows;
    RunDelivers(ws, |ws|);
    RecordedLead(ws, DeliveredAfter(ws, |ws|), k, |ws| - 1);
  }

  lemma RecordedLead(ws: seq<Window>, ss: seq<Snapshot>, k: nat, n: nat)
    requires ws != [] && k < MICS && n <= |ws| && ss == Lead(ws) + Images(ws, n)
    ensures Recorded(ss, k, |ss|) == (if ws[0].id != 0 then Silence(WINDOW) else []) + ChannelPair(ws, 2 * k + 2, n)
  {
    hide Images;
    RecordedSum(ss, Lead(ws), Images(ws, n), k, n);
    RecordedImages(ws, k, n);
    LeadIsSilence(ws, k);
  }

  lemma LeadIsSilence(ws: seq<Window>, k: nat)
    requires ws != [] && k < MICS
    ensures Recorded(Lead(ws), k, |Lead(ws)|) == if ws[0].id != 0 then Silence(WINDOW) else []
  {
    if ws[0].id != 0 {
      assert Recorded([Quiet()], k, 1) == Recorded([Quiet()], k, 0) + Silence(WINDOW);
    }
  }

  /**
   * End to end: reading back what was captured of a run gives, after the leading silence if there
   * is one, the left microphone's channels 2 and 3 and the right one's channels 8 and 9 of every
   * window but the last, in order, without loss or repetition.
   */
  method CaptureAndRead(ws: seq<Window>) returns (mic1: seq<int>, mic4: seq<int>)
    requires ws != [] && Windows(ws)
    ensures var silence := if ws[0].id != 0 then Silence(WINDOW) else [];
      && mic1 == silence + ChannelPair(ws, 2, |ws| - 1)
      && mic4 == silence + ChannelPair(ws, 8, |ws| - 1)
  {
    var ss := DeliveredAfter(ws, |ws|);
    var out := Capture(ss);
    mic1, mic4 := ReadAll(out);
    ReadsRecording(ws, 0);
    ReadsRecording(ws, 3);
  }

  lemma ReadsRecording(ws: seq<Window>, k: nat)
    requires ws != [] && Windows(ws) && k < MICS
    ensures var ss := DeliveredAfter(ws, |ws|);
      var out := Captured(ss, |ss|);
      var n := |out| - |out| % BLOCK;
      n % MICS == 0 && Column(out[..n], k) ==
        (if ws[0].id != 0 then Silence(WINDOW) else []) + ChannelPair(ws, 2 * k + 2, |ws| - 1)
  {
    var ss := DeliveredAfter(ws, |ws|);
    ColumnsAreRecordings(ss, k, |ss|);
    RecordedRun(ws, k);
    assert Captured(ss, |ss|)[..|Captured(ss, |ss|)|] == Captured(ss, |ss|);
  }
}
