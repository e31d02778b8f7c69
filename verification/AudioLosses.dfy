/**
 * What the audio callback receives when packets are lost, repeated or out of order: every packet
 * sequence is allowed, complete windows or not.
 */
module AudioLosses {
  import opened AudioWindows

  /** The window of the last audio packet among the first `i`. */
  function LastWindow(ps: seq<Packet>, i: nat): nat
    requires i <= |ps|
  {
    if i == 0 then 0 else if ps[i - 1].Audio? then ps[i - 1].window else LastWindow(ps, i - 1)
  }

  /** Packet `i` is an audio packet of another window than the last one. */
  predicate Changes(ps: seq<Packet>, i: nat)
    requires i < |ps|
  {
    ps[i].Audio? && ps[i].window != LastWindow(ps, i)
  }

  /** How many of the first `i` packets change the window. */
  function Changed(ps: seq<Packet>, i: nat): nat
    requires i <= |ps|
  {
    if i == 0 then 0 else Changed(ps, i - 1) + (if Changes(ps, i - 1) then 1 else 0)
  }

  predicate Carries(p: Packet, c: Used) {
    p.Audio? && p.channel == c
  }

  /** The samples of the last packet of channel `c` among the first `i`, or silence. */
  function LastSamples(ps: seq<Packet>, i: nat, c: Used): Samples
    requires i <= |ps|
  {
    if i == 0 then Silence(SAMPLES)
    else if Carries(ps[i - 1], c) then ps[i - 1].samples
    else LastSamples(ps, i - 1, c)
  }

  function Latest(ps: seq<Packet>, i: nat): Used -> Samples
    requires i <= |ps|
  {
    (c: Used) => LastSamples(ps, i, c)
  }

  lemma SilentWords()
    ensures Words(Silence(SAMPLES)) == Silence(WINDOW)
  {
  }

  lemma {:induction false} StateIsLatest(ps: seq<Packet>, i: nat, c: Used)
    requires i <= |ps|
    ensures StateAt(Init(), ps, i).inWindow == LastWindow(ps, i)
    ensures Holds(StateAt(Init(), ps, i).now, c, LastSamples(ps, i, c))
  {
    if i == 0 {
      SilentWords();
    } else {
      StateIsLatest(ps, i - 1, c);
      if ps[i - 1].Audio? {
        var p := ps[i - 1];
        DepositHolds(StateAt(Init(), ps, i - 1).now, p.channel, p.samples, c, LastSamples(ps, i - 1, c));
      }
    }
  }

  /** At any time the buffers hold the last packet of every channel, whatever was lost. */
  lemma BuffersAreLatest(ps: seq<Packet>, i: nat)
    requires i <= |ps|
    ensures StateAt(Init(), ps, i) == State(LastWindow(ps, i), Laid(Latest(ps, i)))
  {
    StateIsLatest(ps, i, 1);
    var now := StateAt(Init(), ps, i).now;
    forall c: Used ensures Holds(now, c, Latest(ps, i)(c)) {
      StateIsLatest(ps, i, c);
    }
    AllHeld(now, Latest(ps, i));
  }

  /** The callback runs once for every change of window. */
  lemma {:induction false} CallbacksAreChanges(ps: seq<Packet>, i: nat)
    requires i <= |ps|
    ensures |Delivered(Init(), ps, i)| == Changed(ps, i)
  {
    hide Laid, Latest, LastWindow, StateAt;
    if i > 0 {
      CallbacksAreChanges(ps, i - 1);
      BuffersAreLatest(ps, i - 1);
    }
  }

  /**
   * What it receives, over every sequence of packets: the callback for the change at packet `j` gets,
   * for each channel, the samples of the last packet of that channel before `j`, or silence.
   */
  lemma {:induction false} EveryCallback(ps: seq<Packet>, i: nat, j: nat)
    requires j < i <= |ps| && Changes(ps, j)
    ensures Changed(ps, j) < |Delivered(Init(), ps, i)|
    ensures Delivered(Init(), ps, i)[Changed(ps, j)] == Laid(Latest(ps, j))
  {
    hide Laid, Latest, LastWindow, StateAt;
    CallbacksAreChanges(ps, i - 1);
    BuffersAreLatest(ps, i - 1);
    if j < i - 1 {
      EveryCallback(ps, i - 1, j);
    }
  }

  /** A channel that lost its packet repeats what it delivered before, so its half is stale, not missing. */
  lemma {:induction false} LostChannelRepeats(ps: seq<Packet>, k: nat, j: nat, c: Used)
    requires k <= j <= |ps| && forall t :: k <= t < j ==> !Carries(ps[t], c)
    ensures Latest(ps, j)(c) == Latest(ps, k)(c)
  {
    if k < j {
      LostChannelRepeats(ps, k, j - 1, c);
    }
  }
}
