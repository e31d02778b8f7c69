/**
 * The functions of the synchronous wrapper that run under the ring's lock, on the ring and the
 * packet stream they really update. Their effect on the ring is the one `SyncRing` interleaves.
 */
module SyncWrapper {
  import opened Arith
  import opened PacketStreams
  import opened SyncRing
  import opened Options

  class BufferRing {
    var buf0: array?<byte>
    var buf1: array?<byte>
    var buf2: array?<byte>
    var timestamp: int
    var valid: bool
    var mode: int

    function Contents(): Ring<array?<byte>>
      reads this
    {
      Ring(buf0, buf1, buf2, timestamp, valid, mode)
    }

    /** Three different buffers, each large enough for a frame of the mode. */
    ghost predicate Allocated(size: nat)
      reads this
    {
      && buf0 != null && buf1 != null && buf2 != null
      && buf0 != buf1 && buf1 != buf2 && buf0 != buf2
      && size <= buf0.Length && size <= buf1.Length && size <= buf2.Length
    }

    /** The stream runs in the ring's mode and fills slot 2. */
    ghost predicate Drives(strm: PacketStream)
      reads this, strm, strm.rawBuf
    {
      && strm.running && strm.Valid()
      && Allocated(if strm.splitBufs then 0 else strm.layout.frameSize)
      && strm.procBuf == buf2 && strm.libBuf == null
    }

    constructor ()
      ensures Contents() == Freed(null)
    {
      buf0, buf1, buf2 := null, null, null;
      timestamp, valid, mode := 0, false, NO_MODE;
    }

    /** `producer_cb_inner`: its assertion holds, and the driver is redirected to the new slot 2. */
    method ProducerCbInner(strm: PacketStream, data: array<byte>, stamp: int)
      requires Drives(strm) && data == strm.procBuf
      modifies this, strm
      ensures Contents() == Publish(old(Contents()), stamp)
      ensures Drives(strm) && strm.usrBuf == buf2
      ensures strm.Contents() ==
                Redirect(old(strm.Contents()), if strm.splitBufs then None else Some(old(buf1[..])))
    {
      assert data == buf2;
      var temp := buf1;
      buf1 := buf2;
      buf2 := temp;
      var res := strm.SetBuf(temp);
      timestamp := stamp;
      valid := true;
    }

    /** `sync_get` from the moment a frame is there. The driver's target is not touched. */
    method SyncGet() returns (data: array?<byte>, stamp: int)
      requires valid
      modifies this
      ensures Contents() == Take(old(Contents()))
      ensures data == old(buf1) == buf0 && stamp == old(timestamp)
    {
      var temp := buf0;
      buf0 := buf1;
      data := buf1;
      buf1 := temp;
      valid := false;
      stamp := timestamp;
    }

    method FreeRing()
      modifies this
      ensures Contents() == Freed(null)
    {
      buf0, buf1, buf2 := null, null, null;
      timestamp := 0;
      valid := false;
      mode := NO_MODE;
    }

    /** `alloc_buffer_ring_*`; a mode without a size is rejected. */
    method AllocRing(mode: int, size: Option<nat>) returns (ok: bool)
      modifies this
      ensures ok <==> size.Some?
      ensures !ok ==> Contents() == old(Contents())
      ensures ok ==> Allocated(size.value) && fresh({buf0, buf1, buf2})
      ensures ok ==> timestamp == 0 && !valid && this.mode == mode
    {
      if size.None? {
        return false;
      }
      buf0 := new byte[size.value];
      buf1 := new byte[size.value];
      buf2 := new byte[size.value];
      timestamp := 0;
      valid := false;
      this.mode := mode;
      return true;
    }

    /**
     * `change_video_format` and `change_depth_format`: stop, reallocate, restart. After a rejected
     * mode the stream stays stopped and the ring is empty. `starts` is what the driver makes of the
     * start, whose result is ignored: after a failed one the ring has the mode, and nothing fills it.
     */
    method ChangeMode(strm: PacketStream, mode: int, size: Option<nat>, rlen: nat, starts: bool) returns (ok: bool)
      requires strm.layout.flag == 0x70 || strm.layout.flag == 0x80
      requires size.Some? ==> 0 < strm.layout.pktSize < if rlen == 0 then size.value else rlen
      modifies this, strm
      ensures ok <==> size.Some?
      ensures ok ==> Allocated(size.value) && !strm.synced && !valid && this.mode == mode
      ensures ok && starts ==> Drives(strm)
      ensures ok && !starts ==> !strm.running && strm.usrBuf == buf2
      ensures !ok ==> !strm.running && Contents() == Freed(null)
    {
      strm.running := false;
      FreeRing();
      ok := AllocRing(mode, size);
      if !ok {
        return;
      }
      var res := strm.SetBuf(buf2);
      strm.Init(rlen, size.value);
      strm.running := starts;
    }
  }
}
