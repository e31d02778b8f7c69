/**
 * Reassembly of audio windows (libfreenect/src/audio.c, `iso_in_callback` and the state that
 * `freenect_start_audio` sets up): packets of single channels become windows of four microphones.
 */
module AudioWindows {

  const SAMPLES := 128   // 32-bit samples in one packet
  const WINDOW := 256    // samples per microphone in one window
  const CHANNELS := 10
  const MICS := 4

  function Silence(n: nat): (r: seq<int>)
    ensures |r| == n
  {
    seq(n, _ => 0)
  }

  type Samples = s: seq<int> | |s| == SAMPLES witness Silence(SAMPLES)

  type Buffer = s: seq<int> | |s| == WINDOW witness Silence(WINDOW)

  /** The 16-bit number of a channel; the device uses 1 to 10. */
  type Channel = c: nat | c < 0x1_0000

  type WindowId = n: nat | n < 0x1_0000

  /** A packet of 524 bytes with the right magic, or anything else, which is dropped. */
  datatype Packet = Audio(channel: Channel, window: WindowId, samples: Samples) | Other

  /** The 256 16-bit words of 128 32-bit ones, low half first, as `memcpy` lays them down. */
  function Words(samples: Samples): Buffer {
    seq(WINDOW, i requires 0 <= i < WINDOW => Word(samples[i / 2], i % 2 == 1))
  }

  function Word(x: int, high: bool): int {
    var w := x % 0x1_0000_0000;
    var h := if high then w / 0x1_0000 else w % 0x1_0000;
    if h < 0x8000 then h else h - 0x1_0000
  }

  /** What the callback is given: four microphones and the noise-cancelled stream. */
  datatype Snapshot = Snapshot(mic1: Buffer, mic2: Buffer, mic3: Buffer, mic4: Buffer, cancelled: Buffer) {
    function Mic(k: nat): Buffer
      requires k < MICS
    {
      if k == 0 then mic1 else if k == 1 then mic2 else if k == 2 then mic3 else mic4
    }

    function SetMic(k: nat, b: Buffer): Snapshot
      requires k < MICS
    {
      if k == 0 then this.(mic1 := b) else if k == 1 then this.(mic2 := b)
      else if k == 2 then this.(mic3 := b) else this.(mic4 := b)
    }
  }

  datatype State = State(inWindow: nat, now: Snapshot)

  function Quiet(): Snapshot {
    Snapshot(Silence(WINDOW), Silence(WINDOW), Silence(WINDOW), Silence(WINDOW), Silence(WINDOW))
  }

  /** The state that `freenect_start_audio` sets up. */
  function Init(): State {
    State(0, Quiet())
  }

  function SetHalf(mic: Buffer, second: bool, samples: Samples): Buffer {
    if second then mic[..SAMPLES] + samples else samples + mic[SAMPLES..]
  }

  /** Where the samples of a channel go: 1 is the cancelled stream, 2 to 9 are microphone halves. */
  function Deposit(s: Snapshot, channel: Channel, samples: Samples): Snapshot {
    if channel == 1 then s.(cancelled := Words(samples))
    else if 2 <= channel <= 9 then
      var k := (channel - 2) / 2;
      s.SetMic(k, SetHalf(s.Mic(k), channel % 2 == 1, samples))
    else s
  }

  /** The channel minus one indexes an array of ten without a check. */
  predicate OutsideArray(p: Packet) {
    p.Audio? && !(1 <= p.channel <= CHANNELS)
  }

  /** The callback runs before the first packet of a new window is stored. */
  predicate Fires(s: State, p: Packet) {
    p.Audio? && p.window != s.inWindow
  }

  function Next(s: State, p: Packet): State {
    if p.Other? then s else State(p.window, Deposit(s.now, p.channel, p.samples))
  }

  function StateAt(s: State, ps: seq<Packet>, i: nat): State
    requires i <= |ps|
  {
    if i == 0 then s else Next(StateAt(s, ps, i - 1), ps[i - 1])
  }

  /** The snapshots that the callback received for the first `i` packets, in order. */
  function Delivered(s: State, ps: seq<Packet>, i: nat): seq<Snapshot>
    requires i <= |ps|
  {
    if i == 0 then []
    else
      var before := StateAt(s, ps, i - 1);
      Delivered(s, ps, i - 1) + (if Fires(before, ps[i - 1]) then [before.now] else [])
  }

  // ---------------------------------------------------------------- the record

  class AudioStream {
    var inWindow: nat
    const lastSeenWindow: array<nat>
    const mic: seq<array<int>>
    const cancelledBuffer: array<int>

    ghost function Snap(): Snapshot
      reads mic, cancelledBuffer
      requires Shape()
    {
      Snapshot(mic[0][..], mic[1][..], mic[2][..], mic[3][..], cancelledBuffer[..])
    }

    ghost function Contents(): State
      reads this, mic, cancelledBuffer
      requires Shape()
    {
      State(inWindow, Snap())
    }

    ghost predicate Shape() {
      && |mic| == MICS && lastSeenWindow.Length == CHANNELS && cancelledBuffer.Length == WINDOW
      && mic[0].Length == mic[1].Length == mic[2].Length == mic[3].Length == WINDOW
      && mic[0] != mic[1] && mic[0] != mic[2] && mic[0] != mic[3]
      && mic[1] != mic[2] && mic[1] != mic[3] && mic[2] != mic[3]
      && cancelledBuffer !in mic
    }

    constructor Start()
      ensures Shape() && Contents() == Init()
      ensures fresh(lastSeenWindow) && fresh(cancelledBuffer) && fresh(mic)
      ensures forall t :: 0 <= t < CHANNELS ==> lastSeenWindow[t] == 0
    {
      inWindow := 0;
      lastSeenWindow := new nat[CHANNELS](_ => 0);
      cancelledBuffer := new int[WINDOW](_ => 0);
      var m0 := new int[WINDOW](_ => 0);
      var m1 := new int[WINDOW](_ => 0);
      var m2 := new int[WINDOW](_ => 0);
      var m3 := new int[WINDOW](_ => 0);
      mic := [m0, m1, m2, m3];
      new;
      assert cancelledBuffer[..] == Silence(WINDOW);
      assert m0[..] == Silence(WINDOW) && m1[..] == Silence(WINDOW);
      assert m2[..] == Silence(WINDOW) && m3[..] == Silence(WINDOW);
    }

    /**
     * `iso_in_callback`; the result is what the audio callback received, if it ran, and whether the
     * last assignment missed its array. What that overwrites is not part of this model.
     */
    method IsoIn(p: Packet) returns (delivered: seq<Snapshot>, stray: bool)
      requires Shape()
      modifies this, lastSeenWindow, mic, cancelledBuffer
      ensures Contents() == Next(old(Contents()), p)
      ensures delivered == if Fires(old(Contents()), p) then [old(Contents()).now] else []
      ensures stray <==> OutsideArray(p)
      ensures p.Audio? && !stray ==> lastSeenWindow[p.channel - 1] == p.window == inWindow
    {
      delivered, stray := [], false;
      if p.Other? {
        return;
      }
      if p.window != inWindow {
        delivered := [Snapshot(mic[0][..], mic[1][..], mic[2][..], mic[3][..], cancelledBuffer[..])];
        inWindow := p.window;
      }
      Store(p.channel, p.samples);
      if OutsideArray(p) {
        stray := true;
      } else {
        lastSeenWindow[p.channel - 1] := p.window;
      }
    }

    method Store(channel: Channel, samples: Samples)
      requires Shape()
      modifies mic, cancelledBuffer
      ensures Snap() == Deposit(old(Snap()), channel, samples)
    {
      if channel == 1 {
        var w := Words(samples);
        forall i | 0 <= i < WINDOW {
          cancelledBuffer[i] := w[i];
        }
        assert cancelledBuffer[..] == w;
      } else if 2 <= channel <= 9 {
        StoreHalf((channel - 2) / 2, channel % 2 == 1, samples);
      }
    }

    method StoreHalf(k: nat, second: bool, samples: Samples)
      requires Shape() && k < MICS
      modifies mic[k]
      ensures Snap() == old(Snap()).SetMic(k, SetHalf(old(Snap()).Mic(k), second, samples))
    {
      ghost var before := mic[k][..];
      var at := if second then SAMPLES else 0;
      forall i | 0 <= i < SAMPLES {
        mic[k][at + i] := samples[i];
      }
      assert mic[k][..] == SetHalf(before, second, samples);
    }
  }

  // ---------------------------------------------------------------- windows of the device

  type Used = c: nat | 1 <= c <= 9 witness 1

  /**
   * A window as the device sends it: the samples of channels 1 to 9, and the order in which the
   * packets arrive; a channel may be repeated.
   */
  datatype Window = Window(id: WindowId, data: Used -> Samples, order: seq<Used>)

  /** Every channel arrives before the next window begins. */
  ghost predicate Complete(w: Window) {
    forall c: Used :: c in w.order
  }

  function PacketOf(w: Window, i: nat): Packet
    requires i < |w.order|
  {
    Audio(w.order[i], w.id, w.data(w.order[i]))
  }

  function Packets(w: Window): (r: seq<Packet>)
    ensures |r| == |w.order|
  {
    seq(|w.order|, i requires 0 <= i < |w.order| => PacketOf(w, i))
  }

  /** What given samples look like in place: for microphone `k`, channel 2k+2 followed by channel 2k+3. */
  function Laid(data: Used -> Samples): Snapshot {
    Snapshot(data(2) + data(3), data(4) + data(5), data(6) + data(7), data(8) + data(9), Words(data(1)))
  }

  /** What the window should deliver. */
  function Image(w: Window): Snapshot {
    Laid(w.data)
  }

  /** The place of channel `c` in a snapshot holds the samples `x`. */
  predicate Holds(s: Snapshot, c: Used, x: Samples) {
    if c == 1 then s.cancelled == Words(x)
    else
      var mic := s.Mic((c - 2) / 2);
      (if c % 2 == 1 then mic[SAMPLES..] else mic[..SAMPLES]) == x
  }

  lemma DepositHolds(s: Snapshot, c: Channel, x: Samples, d: Used, y: Samples)
    ensures d == c ==> Holds(Deposit(s, c, x), d, x)
    ensures d != c ==> (Holds(s, d, y) <==> Holds(Deposit(s, c, x), d, y))
  {
    if 2 <= c <= 9 && d != 1 && c != d && (d - 2) / 2 == (c - 2) / 2 {
      assert c % 2 != d % 2;
    }
  }

  lemma MicHeld(s: Snapshot, data: Used -> Samples, k: nat)
    requires k < MICS && Holds(s, 2 * k + 2, data(2 * k + 2)) && Holds(s, 2 * k + 3, data(2 * k + 3))
    ensures s.Mic(k) == data(2 * k + 2) + data(2 * k + 3)
  {
    assert s.Mic(k) == s.Mic(k)[..SAMPLES] + s.Mic(k)[SAMPLES..];
  }

  lemma AllHeld(s: Snapshot, data: Used -> Samples)
    requires forall c: Used :: Holds(s, c, data(c))
    ensures s == Laid(data)
  {
    assert s.cancelled == Words(data(1)) by { assert Holds(s, 1, data(1)); }
    assert s.mic1 == data(2) + data(3) by { MicHeld(s, data, 0); }
    assert s.mic2 == data(4) + data(5) by { MicHeld(s, data, 1); }
    assert s.mic3 == data(6) + data(7) by { MicHeld(s, data, 2); }
    assert s.mic4 == data(8) + data(9) by { MicHeld(s, data, 3); }
  }

  /** After the first `i` packets of a window, the channels that arrived are in place. */
  ghost predicate Partly(r: State, w: Window, i: nat)
    requires i <= |w.order|
  {
    && (i > 0 ==> r.inWindow == w.id)
    && forall j :: 0 <= j < i ==> Holds(r.now, w.order[j], w.data(w.order[j]))
  }

  lemma PartlyNext(r: State, w: Window, i: nat)
    requires i < |w.order| && Partly(r, w, i)
    ensures Partly(Next(r, Packets(w)[i]), w, i + 1)
  {
    forall j | 0 <= j < i + 1
      ensures Holds(Next(r, Packets(w)[i]).now, w.order[j], w.data(w.order[j]))
    {
      DepositHolds(r.now, w.order[i], w.data(w.order[i]), w.order[j], w.data(w.order[j]));
    }
  }

  lemma {:induction false} WindowPrefix(s: State, w: Window, i: nat)
    requires i <= |w.order|
    ensures Partly(StateAt(s, Packets(w), i), w, i)
    ensures Delivered(s, Packets(w), i) == if i > 0 && w.id != s.inWindow then [s.now] else []
  {
    hide Packets;
    if i > 0 {
      WindowPrefix(s, w, i - 1);
      PartlyNext(StateAt(s, Packets(w), i - 1), w, i - 1);
      FiresFirst(s, w, i - 1);
    }
  }

  /** Within a window the callback runs only before the first packet. */
  lemma FiresFirst(s: State, w: Window, i: nat)
    requires i < |w.order| && Partly(StateAt(s, Packets(w), i), w, i)
    ensures Fires(StateAt(s, Packets(w), i), Packets(w)[i]) <==> i == 0 && w.id != s.inWindow
  {
    assert Packets(w)[i] == PacketOf(w, i);
  }

  /** A whole window: one callback, with what was there before, and then the window is in place. */
  lemma WindowTaken(s: State, w: Window)
    requires Complete(w)
    ensures var r := StateAt(s, Packets(w), |w.order|);
      && r == State(w.id, Image(w))
      && Delivered(s, Packets(w), |w.order|) == if w.id != s.inWindow then [s.now] else []
  {
    WindowPrefix(s, w, |w.order|);
    var r := StateAt(s, Packets(w), |w.order|);
    assert (1 as Used) in w.order;
    forall c: Used ensures Holds(r.now, c, w.data(c)) {
      assert c in w.order;
    }
    AllHeld(r.now, w.data);
  }
}
