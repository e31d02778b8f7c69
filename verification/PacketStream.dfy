/**
 * Isochronous packet reassembly (libfreenect/src/cameras.c, `stream_process`,
 * `stream_init` and `stream_setbuf`), in the fixed-length mode both start functions select.
 *
 * `Process` is the effect of one packet on the stream's state; `PacketStream` is the record
 * that the source updates in place, and its methods are proved to have exactly that effect.
 */
module PacketStreams {
  import opened Arith
  import opened Options

  const HEADER_SIZE := 12

  /** The part of the record that packets do not change. */
  datatype Layout = Layout(flag: byte, pktSize: nat, frameSize: nat, pktsPerFrame: nat, lastPktSize: nat) {
    // The flag base is 0x70 (depth) or 0x80 (video): the low bits are clear, so `flag|k` is a sum.
    // A frame takes at least two packets; the smallest shipped mode takes 162.
    predicate Valid() {
      && (flag == 0x70 || flag == 0x80)
      && 2 <= pktsPerFrame
      && 0 < lastPktSize <= pktSize
      && frameSize == Times(pktsPerFrame - 1, pktSize) + lastPktSize
    }

    function Sof(): int { flag + 1 }

    function Mof(): int { flag + 2 }

    function Eof(): int { flag + 5 }

    function ExpectedSize(slot: int): nat {
      if slot == pktsPerFrame - 1 then lastPktSize else pktSize
    }

    /** The flag that the packet in a slot of the frame must carry. */
    function FlagOf(slot: int): int {
      if slot == 0 then Sof() else if slot == pktsPerFrame - 1 then Eof() else Mof()
    }

    /** Where a slot begins in the raw buffer: slot number times payload size. */
    function SlotStart(slot: nat): nat {
      Times(slot, pktSize)
    }

    /** Every slot of the frame lies inside it. */
    lemma SlotFits(slot: nat)
      requires Valid() && slot < pktsPerFrame
      ensures SlotStart(slot) + ExpectedSize(slot) <= frameSize
    {
      if slot < pktsPerFrame - 1 {
        TimesMonotone(slot + 1, pktsPerFrame - 1, pktSize);
      }
    }

    /** Different slots do not overlap. */
    lemma SlotsApart(a: nat, b: nat)
      requires Valid() && a < b
      ensures SlotStart(a) + ExpectedSize(a) <= SlotStart(b)
    {
      TimesMonotone(a + 1, b, pktSize);
    }
  }

  /** The sizes that `stream_init` computes: the last packet holds what the others leave over. */
  lemma ComputedSizes(frameSize: nat, pktSize: nat)
    requires 0 < pktSize < frameSize
    ensures var last := if frameSize % pktSize == 0 then pktSize else frameSize % pktSize;
      var pkts := (frameSize + pktSize - 1) / pktSize;
      2 <= pkts && 0 < last <= pktSize && frameSize == Times(pkts - 1, pktSize) + last
  {
    var q, r := frameSize / pktSize, frameSize % pktSize;
    assert frameSize == q * pktSize + r;
    MulMonotone(q + 1, 1, pktSize);
    if r == 0 {
      DivModUnique(frameSize + pktSize - 1, q, pktSize - 1, pktSize);
      MulMonotone(q, 1, pktSize);
      assert frameSize == (q - 1) * pktSize + pktSize;
      TimesIsProduct(q - 1, pktSize);
    } else {
      assert (q + 1) * pktSize == q * pktSize + pktSize;
      DivModUnique(frameSize + pktSize - 1, q + 1, r - 1, pktSize);
      TimesIsProduct(q, pktSize);
    }
  }

  datatype State = State(
    synced: bool, seqNo: byte, gotPkts: int, pktNum: int, validPkts: int, lostPkts: int,
    validFrames: int, lastTimestamp: int, timestamp: int, raw: seq<byte>)

  /** What holds before and after every packet, whatever the packets are. */
  ghost predicate Safe(l: Layout, s: State)
    requires l.Valid()
  {
    l.frameSize <= |s.raw| && (s.synced ==> 0 <= s.gotPkts <= s.pktNum < l.pktsPerFrame)
  }

  // Fields of `struct pkt_hdr`; the timestamp is little-endian.
  function HdrFlag(pkt: seq<byte>): byte
    requires HEADER_SIZE <= |pkt|
  {
    pkt[3]
  }

  function HdrSeq(pkt: seq<byte>): byte
    requires HEADER_SIZE <= |pkt|
  {
    pkt[5]
  }

  function HdrTimestamp(pkt: seq<byte>): int
    requires HEADER_SIZE <= |pkt|
  {
    var b0: int, b1: int, b2: int, b3: int := pkt[8], pkt[9], pkt[10], pkt[11];
    b0 + 0x100 * b1 + 0x1_0000 * b2 + 0x100_0000 * b3
  }

  function Payload(pkt: seq<byte>): seq<byte>
    requires HEADER_SIZE <= |pkt|
  {
    pkt[HEADER_SIZE..]
  }

  predicate HasMagic(pkt: seq<byte>) {
    HEADER_SIZE <= |pkt| && pkt[0] == 0x52 && pkt[1] == 0x42
  }

  /** The start-of-frame packet that ends the wait for synchronisation. */
  function Sync(s: State, seqNo: byte): State {
    s.(synced := true, seqNo := seqNo, pktNum := 0, validPkts := 0, gotPkts := 0)
  }

  /** The 8-bit distance between the sequence number expected and the one received. */
  function Lost(s: State, seqNo: byte): byte {
    (seqNo - s.seqNo) % 256
  }

  /** Loss recovery. The second component is the size of a frame completed by the loss, or 0. */
  function Recover(l: Layout, s: State, seqNo: byte): (State, nat)
  {
    var lost := Lost(s, seqNo);
    var counted := s.(lostPkts := (s.lostPkts + lost) % 0x1_0000_0000);
    if lost == 0 then
      (s, 0)
    else if lost > 5 then
      (counted.(synced := false), 0)
    else
      var left := l.pktsPerFrame - s.pktNum;
      if left <= lost then
        (counted.(seqNo := seqNo, pktNum := lost - left, validPkts := s.gotPkts, gotPkts := 0,
                  timestamp := s.lastTimestamp, validFrames := s.validFrames + 1), l.frameSize)
      else
        (counted.(seqNo := seqNo, pktNum := s.pktNum + lost), 0)
  }

  function Overwrite(raw: seq<byte>, at: nat, data: seq<byte>): (r: seq<byte>)
    requires at + |data| <= |raw|
    ensures |r| == |raw|
    ensures forall i {:trigger r[i]} ::
              0 <= i < |raw| ==> r[i] == if at <= i < at + |data| then data[i - at] else raw[i]
  {
    raw[..at] + data + raw[at + |data|..]
  }

  /** The copy into the packet's slot, and the counters that follow it. */
  function Store(l: Layout, s: State, pkt: seq<byte>): State
    requires HasMagic(pkt) && 0 <= s.pktNum && l.SlotStart(s.pktNum) + |Payload(pkt)| <= |s.raw|
  {
    s.(raw := Overwrite(s.raw, l.SlotStart(s.pktNum), Payload(pkt)), pktNum := s.pktNum + 1,
       seqNo := (s.seqNo + 1) % 256, gotPkts := s.gotPkts + 1, lastTimestamp := HdrTimestamp(pkt))
  }

  /** The end-of-frame packet completes the frame. */
  function EndFrame(s: State): State {
    s.(pktNum := 0, validPkts := s.gotPkts, gotPkts := 0, timestamp := s.lastTimestamp,
       validFrames := s.validFrames + 1)
  }

  /** Checks of the flag and the length, the copy, and the end-of-frame bookkeeping. */
  function Accept(l: Layout, s: State, pkt: seq<byte>, got: nat): (State, nat)
    requires l.Valid() && HasMagic(pkt) && l.frameSize <= |s.raw|
  {
    var flag, data := HdrFlag(pkt), Payload(pkt);
    var last := l.pktsPerFrame - 1;
    if !(s.pktNum == 0 && flag == l.Sof()) &&
       !(s.pktNum == last && flag == l.Eof()) &&
       !(0 < s.pktNum < last && flag == l.Mof())
    then
      (s.(synced := false), got)
    else if |data| > l.ExpectedSize(s.pktNum) then
      (s, got)
    else
      l.SlotFits(s.pktNum);
      var stored := Store(l, s, pkt);
      if flag == l.Eof() then
        (EndFrame(stored), l.SlotStart(s.pktNum) + l.lastPktSize)
      else
        (stored, got)
  }

  /** The effect of one packet, and the frame size handed to the caller (0 for no frame). */
  function Process(l: Layout, s: State, pkt: seq<byte>): (State, nat)
    requires l.Valid() && Safe(l, s)
  {
    if !HasMagic(pkt) then
      (s, 0)
    else if !s.synced && HdrFlag(pkt) != l.Sof() then
      (s, 0)
    else
      var s1 := if s.synced then s else Sync(s, HdrSeq(pkt));
      var (s2, got) := Recover(l, s1, HdrSeq(pkt));
      if !s2.synced then (s2, 0) else Accept(l, s2, pkt, got)
  }

  /** `stream_setbuf` between two packets: the raw buffer becomes another one, or stays. */
  function Redirect(s: State, buf: Option<seq<byte>>): State {
    if buf.None? then s else s.(raw := buf.value)
  }

  method Memcpy(dst: array<byte>, at: nat, data: seq<byte>)
    requires at + |data| <= dst.Length
    modifies dst
    ensures dst[..] == Overwrite(old(dst[..]), at, data)
  {
    forall i | 0 <= i < |data| {
      dst[at + i] := data[i];
    }
  }

  /** The record of one stream, with the fields of the source. */
  class PacketStream {
    var running: bool
    var layout: Layout
    var synced: bool
    var seqNo: byte
    var gotPkts: int
    var pktNum: int
    var validPkts: int
    var lostPkts: int
    var validFrames: int
    var lastTimestamp: int
    var timestamp: int
    var splitBufs: bool
    var libBuf: array?<byte>
    var usrBuf: array?<byte>
    var rawBuf: array?<byte>
    var procBuf: array?<byte>

    ghost function Contents(): State
      reads this, rawBuf
      requires rawBuf != null
    {
      State(synced, seqNo, gotPkts, pktNum, validPkts, lostPkts, validFrames, lastTimestamp,
            timestamp, rawBuf[..])
    }

    ghost predicate Valid()
      reads this, rawBuf
    {
      && rawBuf != null && procBuf != null
      && layout.Valid()
      && Safe(layout, Contents())
      && (!splitBufs ==> rawBuf == procBuf)
    }

    /** Packets change neither the layout nor the choice of buffers. */
    twostate predicate SameSetup()
      reads this
    {
      && layout == old(layout)
      && running == old(running) && splitBufs == old(splitBufs)
      && libBuf == old(libBuf) && usrBuf == old(usrBuf)
      && rawBuf == old(rawBuf) && procBuf == old(procBuf)
    }

    constructor (flag: byte, pktSize: nat)
      ensures layout.flag == flag && layout.pktSize == pktSize
      ensures !running && usrBuf == null
    {
      layout := Layout(flag, pktSize, 0, 0, 0);
      running, usrBuf, libBuf, rawBuf, procBuf := false, null, null, null, null;
    }

    /** Chooses the buffers and sets the layout; packets are dropped until a start of frame. */
    method Init(rlen: nat, plen: nat)
      requires layout.flag == 0x70 || layout.flag == 0x80
      requires 0 < layout.pktSize < if rlen == 0 then plen else rlen
      requires usrBuf != null ==> plen <= usrBuf.Length
      modifies this
      ensures Valid() && !synced && validFrames == 0
      ensures layout.flag == old(layout.flag) && layout.pktSize == old(layout.pktSize) && running == old(running)
      ensures layout.frameSize == (if rlen == 0 then plen else rlen)
      ensures usrBuf == old(usrBuf)
      ensures if usrBuf == null then libBuf != null && fresh(libBuf) && procBuf == libBuf
              else libBuf == null && procBuf == usrBuf
      ensures splitBufs <==> rlen != 0
      ensures splitBufs ==> fresh(rawBuf) && rawBuf != procBuf && rawBuf.Length == rlen
    {
      validFrames := 0;
      synced := false;
      ChooseBuffers(rlen, plen);
      ComputeSizes();
    }

    method ChooseBuffers(rlen: nat, plen: nat)
      requires usrBuf != null ==> plen <= usrBuf.Length
      modifies this`libBuf, this`procBuf, this`splitBufs, this`rawBuf, this`layout
      ensures layout.flag == old(layout.flag) && layout.pktSize == old(layout.pktSize)
      ensures layout.frameSize == (if rlen == 0 then plen else rlen)
      ensures if usrBuf == null then libBuf != null && fresh(libBuf) && procBuf == libBuf
              else libBuf == null && procBuf == usrBuf
      ensures splitBufs <==> rlen != 0
      ensures rawBuf != null && layout.frameSize <= rawBuf.Length
      ensures if splitBufs then fresh(rawBuf) && rawBuf != procBuf && rawBuf.Length == rlen else rawBuf == procBuf
    {
      if usrBuf != null {
        libBuf := null;
        procBuf := usrBuf;
      } else {
        libBuf := new byte[plen];
        procBuf := libBuf;
      }
      if rlen == 0 {
        splitBufs := false;
        rawBuf := procBuf;
        layout := layout.(frameSize := plen);
      } else {
        splitBufs := true;
        rawBuf := new byte[rlen];
        layout := layout.(frameSize := rlen);
      }
    }

    /** The last lines of `stream_init`. */
    method ComputeSizes()
      requires 0 < layout.pktSize < layout.frameSize
      modifies this`layout
      ensures layout == old(layout).(pktsPerFrame := layout.pktsPerFrame, lastPktSize := layout.lastPktSize)
      ensures layout.flag == 0x70 || layout.flag == 0x80 ==> layout.Valid()
    {
      ComputedSizes(layout.frameSize, layout.pktSize);
      var last := layout.frameSize % layout.pktSize;
      if last == 0 {
        last := layout.pktSize;
      }
      layout := layout.(lastPktSize := last,
        pktsPerFrame := (layout.frameSize + layout.pktSize - 1) / layout.pktSize);
    }

    /** Redirects the output of a stream. Only the buffer changes, never the position in the frame. */
    method SetBuf(pbuf: array?<byte>) returns (res: int)
      requires running ==> Valid()
      requires running && !splitBufs ==>
                 && (pbuf != null ==> layout.frameSize <= pbuf.Length)
                 && (libBuf != null ==> layout.frameSize <= libBuf.Length)
      modifies this`usrBuf, this`procBuf, this`rawBuf
      ensures res == (if running && pbuf == null && libBuf == null then -1 else 0)
      ensures usrBuf == if res == 0 then pbuf else old(usrBuf)
      ensures procBuf == if running && res == 0 then (if pbuf == null then libBuf else pbuf) else old(procBuf)
      ensures rawBuf == if running && res == 0 && !splitBufs then procBuf else old(rawBuf)
      ensures running ==> Valid()
      ensures running ==>
                Contents() == Redirect(old(Contents()), if splitBufs || res != 0 then None else Some(procBuf[..]))
    {
      if !running {
        usrBuf := pbuf;
        return 0;
      }
      if pbuf == null && libBuf == null {
        return -1;
      }
      usrBuf := pbuf;
      procBuf := if pbuf == null then libBuf else pbuf;
      if !splitBufs {
        rawBuf := procBuf;
      }
      return 0;
    }

    /** One packet. Nothing outside the first `frameSize` bytes of the raw buffer is written. */
    method StreamProcess(pkt: seq<byte>) returns (gotFrameSize: nat)
      requires Valid()
      modifies this, rawBuf
      ensures SameSetup()
      ensures (Contents(), gotFrameSize) == Process(old(layout), old(Contents()), pkt)
      ensures Valid()
    {
      ghost var l, s := layout, Contents();
      ProcessSafe(l, s, pkt);
      if |pkt| < 12 {
        return 0;
      }
      if pkt[0] != 0x52 || pkt[1] != 0x42 {
        return 0;
      }
      var hdrFlag, hdrSeq := pkt[3], pkt[5];
      if !synced {
        if hdrFlag != layout.Sof() {
          return 0;
        }
        StartFrame(hdrSeq);
      }
      var inSync;
      gotFrameSize, inSync := RecoverLost(hdrSeq);
      if !inSync {
        return 0;
      }
      gotFrameSize := AcceptPacket(pkt, gotFrameSize);
    }

    method StartFrame(hdrSeq: byte)
      requires rawBuf != null
      modifies this
      ensures SameSetup()
      ensures Contents() == Sync(old(Contents()), hdrSeq)
    {
      ghost var raw := rawBuf[..];
      synced := true;
      seqNo := hdrSeq;
      pktNum := 0;
      validPkts := 0;
      gotPkts := 0;
      assert rawBuf[..] == raw;
    }

    /** "Handle lost packets". */
    method RecoverLost(hdrSeq: byte) returns (gotFrameSize: nat, inSync: bool)
      requires synced && rawBuf != null
      modifies this
      ensures SameSetup()
      ensures (Contents(), gotFrameSize) == Recover(layout, old(Contents()), hdrSeq)
      ensures inSync == synced
    {
      ghost var s := Contents();
      gotFrameSize := 0;
      if seqNo != hdrSeq {
        var lost: int := (hdrSeq - seqNo) % 256;
        lostPkts := (lostPkts + lost) % 0x1_0000_0000;
        if lost > 5 {
          synced := false;
          assert rawBuf[..] == s.raw;
          return 0, false;
        }
        seqNo := hdrSeq;
        var left := layout.pktsPerFrame - pktNum;
        if left <= lost {
          pktNum := lost - left;
          validPkts := gotPkts;
          gotPkts := 0;
          gotFrameSize := layout.frameSize;
          timestamp := lastTimestamp;
          validFrames := validFrames + 1;
        } else {
          pktNum := pktNum + lost;
        }
      }
      inSync := true;
      assert rawBuf[..] == s.raw;
    }

    method SlotOffset() returns (at: nat)
      requires 0 <= pktNum
      ensures at == layout.SlotStart(pktNum)
    {
      at := pktNum * layout.pktSize;
      TimesIsProduct(pktNum, layout.pktSize);
    }

    /** The second half of `stream_process`: checks, copy and end of frame. */
    method AcceptPacket(pkt: seq<byte>, got: nat) returns (gotFrameSize: nat)
      requires HasMagic(pkt)
      requires rawBuf != null && layout.Valid() && layout.frameSize <= rawBuf.Length
      modifies this, rawBuf
      ensures SameSetup()
      ensures (Contents(), gotFrameSize) == Accept(old(layout), old(Contents()), pkt, got)
    {
      ghost var l, s := layout, Contents();
      var hdrFlag := pkt[3];
      var data := pkt[12..];
      var datalen := |pkt| - 12;
      var sof, mof, eof := layout.Sof(), layout.Mof(), layout.Eof();
      gotFrameSize := got;
      var expectedPktSize := if pktNum == layout.pktsPerFrame - 1 then layout.lastPktSize else layout.pktSize;
      if !(pktNum == 0 && hdrFlag == sof) &&
         !(pktNum == layout.pktsPerFrame - 1 && hdrFlag == eof) &&
         !(pktNum > 0 && pktNum < layout.pktsPerFrame - 1 && hdrFlag == mof)
      {
        synced := false;
        assert rawBuf[..] == s.raw;
        return;
      }
      assert rawBuf[..] == s.raw;
      if datalen > expectedPktSize {
        return;
      }
      l.SlotFits(pktNum);
      var at := SlotOffset();
      StorePacket(pkt, at);
      if hdrFlag == eof {
        gotFrameSize := at + layout.lastPktSize;
        FinishFrame();
      }
    }

    method FinishFrame()
      requires rawBuf != null
      modifies this
      ensures SameSetup()
      ensures Contents() == EndFrame(old(Contents()))
    {
      ghost var raw := rawBuf[..];
      pktNum := 0;
      validPkts := gotPkts;
      gotPkts := 0;
      timestamp := lastTimestamp;
      validFrames := validFrames + 1;
      assert rawBuf[..] == raw;
    }

    method StorePacket(pkt: seq<byte>, at: nat)
      requires HasMagic(pkt) && 0 <= pktNum && rawBuf != null
      requires at == layout.SlotStart(pktNum) && at + |Payload(pkt)| <= rawBuf.Length
      modifies this, rawBuf
      ensures SameSetup()
      ensures Contents() == Store(old(layout), old(Contents()), pkt)
    {
      Memcpy(rawBuf, at, pkt[12..]);
      ghost var raw := rawBuf[..];
      pktNum := pktNum + 1;
      seqNo := (seqNo + 1) % 256;
      gotPkts := gotPkts + 1;
      lastTimestamp := HdrTimestamp(pkt);
      assert rawBuf[..] == raw;
    }
  }

  /** What a completed frame leaves: a size of 0 or one frame, and the counter that records it. */
  ghost predicate Reports(l: Layout, s: State, s': State, got: nat) {
    && (got == 0 || got == l.frameSize)
    && (got != 0 <==> s.validFrames < s'.validFrames)
    && s.validFrames <= s'.validFrames
  }

  ghost predicate SameTail(l: Layout, a: seq<byte>, b: seq<byte>) {
    |a| == |b| && forall i :: l.frameSize <= i < |a| ==> a[i] == b[i]
  }

  lemma RecoverSafe(l: Layout, s: State, seqNo: byte)
    requires l.Valid() && Safe(l, s) && s.synced
    ensures var (s', got) := Recover(l, s, seqNo);
      && s'.raw == s.raw && Reports(l, s, s', got)
      && (s'.synced ==> 0 <= s'.gotPkts <= s'.pktNum)
      && (s'.validPkts == s.validPkts || 0 <= s'.validPkts <= l.pktsPerFrame)
      && (!s'.synced ==> got == 0)
  {
  }

  lemma AcceptSafe(l: Layout, s: State, pkt: seq<byte>, got: nat)
    requires l.Valid() && HasMagic(pkt) && l.frameSize <= |s.raw|
    requires s.synced && 0 <= s.gotPkts <= s.pktNum && (got == 0 || got == l.frameSize)
    ensures var (s', got') := Accept(l, s, pkt, got);
      && Safe(l, s') && SameTail(l, s.raw, s'.raw)
      && (if s'.validFrames == s.validFrames then got' == got else Reports(l, s, s', got'))
      && (s'.validPkts == s.validPkts || 0 <= s'.validPkts <= l.pktsPerFrame)
  {
    if s.pktNum < l.pktsPerFrame {
      l.SlotFits(s.pktNum);
    }
  }

  /** One packet, whatever its bytes, keeps the stream safe and reports nothing or a whole frame. */
  lemma ProcessSafe(l: Layout, s: State, pkt: seq<byte>)
    requires l.Valid() && Safe(l, s)
    ensures var (s', got) := Process(l, s, pkt);
      && Safe(l, s') && Reports(l, s, s', got) && SameTail(l, s.raw, s'.raw)
      && (s'.validPkts == s.validPkts || 0 <= s'.validPkts <= l.pktsPerFrame)
      && (!s.synced && s' != s ==> s'.synced && 0 <= s'.validPkts <= l.pktsPerFrame)
  {
    if HasMagic(pkt) && (s.synced || HdrFlag(pkt) == l.Sof()) {
      var s1 := if s.synced then s else Sync(s, HdrSeq(pkt));
      RecoverSafe(l, s1, HdrSeq(pkt));
      var (s2, g) := Recover(l, s1, HdrSeq(pkt));
      if s2.synced {
        AcceptSafe(l, s2, pkt, g);
      }
    }
  }
}
