/**
 * Depth registration (libfreenect/src/registration.c): the z-buffer that moves depth pixels to
 * their place in the colour image, the conversion to millimetres, and the inverse colour mapping.
 * The three lookup tables are inputs.
 */
module Registration {
  import opened Arith
  import opened Unpack
  import opened Options

  const WIDTH := 640
  const HEIGHT := 480
  const PIXELS := 307200
  const MAX_MM := 10000      // FREENECT_DEPTH_MM_MAX_VALUE
  const NO_MM := 0           // FREENECT_DEPTH_MM_NO_VALUE
  const MAX_RAW := 2048      // FREENECT_DEPTH_RAW_MAX_VALUE
  const SCALE := 256         // REG_X_VAL_SCALE

  datatype Tables = Tables(rawToMm: seq<nat>, depthToRgb: seq<int>, regX: seq<int>, regY: seq<int>, startLines: nat)

  predicate Sized(reg: Tables) {
    |reg.rawToMm| == MAX_RAW && |reg.depthToRgb| == MAX_MM && |reg.regX| == PIXELS && |reg.regY| == PIXELS
  }

  /** Division as C does it: towards zero. */
  function TruncDiv(a: int, b: int): int
    requires b > 0
  {
    if a >= 0 then a / b else -((-a) / b)
  }

  /** The column in the colour image; a negative one is a huge unsigned number and is dropped. */
  function Column(reg: Tables, i: nat, mm: nat): Option<nat>
    requires Sized(reg) && i < PIXELS && mm < MAX_MM
  {
    var nx := TruncDiv(reg.regX[i] + reg.depthToRgb[mm], SCALE);
    if 0 <= nx < WIDTH then Some(nx) else None
  }

  /** Where pixel `i` goes when its depth is `mm`; pixels without a usable depth go nowhere. */
  function Target(reg: Tables, i: nat, mm: nat): Option<int>
    requires Sized(reg) && i < PIXELS
  {
    if mm == NO_MM || mm >= MAX_MM then None
    else match Column(reg, i, mm)
      case None => None
      case Some(nx) => Some(reg.regY[i] * WIDTH + nx - HEIGHT * reg.startLines)
  }

  /** What the tables guarantee and the code does not check: the first `n` pixels have their targets in the image. */
  predicate InImage(reg: Tables, mms: seq<nat>, n: nat)
    requires Sized(reg) && |mms| == PIXELS && n <= PIXELS
  {
    forall i :: 0 <= i < n ==> Lies(Target(reg, i, mms[i]))
  }

  predicate Lies(t: Option<int>) {
    t.Some? ==> 0 <= t.value < PIXELS
  }

  /** One pixel of the z-buffer: the nearer depth wins. */
  function Put(out: seq<nat>, t: Option<int>, mm: nat): (r: seq<nat>)
    requires |out| == PIXELS
    ensures |r| == PIXELS
  {
    if t.Some? && 0 <= t.value < PIXELS && (out[t.value] == NO_MM || out[t.value] > mm) then out[t.value := mm] else out
  }

  function Empty(): (r: seq<nat>)
    ensures |r| == PIXELS
  {
    seq(PIXELS, _ => NO_MM)
  }

  /** The z-buffer after the first `n` pixels of a scan in the given order. */
  function Scan(reg: Tables, mms: seq<nat>, order: seq<nat>, n: nat): (r: seq<nat>)
    requires Sized(reg) && |mms| == PIXELS
    requires n <= |order| && forall k :: 0 <= k < |order| ==> order[k] < PIXELS
    ensures |r| == PIXELS
  {
    if n == 0 then Empty()
    else
      var i := order[n - 1];
      Put(Scan(reg, mms, order, n - 1), Target(reg, i, mms[i]), mms[i])
  }

  /** Pixel `order[k]` of the scan is mapped to `t`. */
  predicate Lands(reg: Tables, mms: seq<nat>, order: seq<nat>, k: nat, t: int)
    requires Sized(reg) && |mms| == PIXELS && k < |order| && order[k] < PIXELS
  {
    Target(reg, order[k], mms[order[k]]) == Some(t)
  }

  /** `v` is the smallest depth among the first `n` scanned pixels mapped to `t`, or 0 if there is none. */
  ghost predicate Nearest(reg: Tables, mms: seq<nat>, order: seq<nat>, n: nat, t: int, v: nat)
    requires Sized(reg) && |mms| == PIXELS && n <= |order|
    requires forall k :: 0 <= k < |order| ==> order[k] < PIXELS
  {
    if v == NO_MM then forall k :: 0 <= k < n ==> !Lands(reg, mms, order, k, t)
    else
      && (exists k :: 0 <= k < n && Lands(reg, mms, order, k, t) && mms[order[k]] == v)
      && (forall k :: 0 <= k < n && Lands(reg, mms, order, k, t) ==> v <= mms[order[k]])
  }

  /** The meaning of the z-buffer, for every order of the scan. */
  lemma {:induction false} ScanIsNearest(reg: Tables, mms: seq<nat>, order: seq<nat>, n: nat, t: nat)
    requires Sized(reg) && |mms| == PIXELS && t < PIXELS
    requires n <= |order| && forall k :: 0 <= k < |order| ==> order[k] < PIXELS
    ensures Nearest(reg, mms, order, n, t, Scan(reg, mms, order, n)[t])
  {
    if n > 0 {
      ScanIsNearest(reg, mms, order, n - 1, t);
      var before, after := Scan(reg, mms, order, n - 1)[t], Scan(reg, mms, order, n)[t];
      if Lands(reg, mms, order, n - 1, t) {
        assert after != NO_MM;
      }
    }
  }

  lemma SameNearest(reg: Tables, mms: seq<nat>, order: seq<nat>, order': seq<nat>, t: nat, v: nat, v': nat)
    requires Sized(reg) && |mms| == PIXELS
    requires forall k :: 0 <= k < |order| ==> order[k] < PIXELS
    requires forall k :: 0 <= k < |order'| ==> order'[k] < PIXELS
    requires forall i :: i in order <==> i in order'
    requires Nearest(reg, mms, order, |order|, t, v) && Nearest(reg, mms, order', |order'|, t, v')
    ensures v == v'
  {
    NoNearer(reg, mms, order, order', t, v, v');
    NoNearer(reg, mms, order', order, t, v', v);
  }

  lemma NoNearer(reg: Tables, mms: seq<nat>, order: seq<nat>, order': seq<nat>, t: nat, v: nat, v': nat)
    requires Sized(reg) && |mms| == PIXELS
    requires forall k :: 0 <= k < |order| ==> order[k] < PIXELS
    requires forall k :: 0 <= k < |order'| ==> order'[k] < PIXELS
    requires forall i :: i in order ==> i in order'
    requires Nearest(reg, mms, order, |order|, t, v) && Nearest(reg, mms, order', |order'|, t, v')
    ensures v != NO_MM ==> v' != NO_MM && v' <= v
  {
    if v != NO_MM {
      var k :| 0 <= k < |order| && Lands(reg, mms, order, k, t) && mms[order[k]] == v;
      assert order[k] in order';
      var k' :| 0 <= k' < |order'| && order'[k'] == order[k];
      assert Lands(reg, mms, order', k', t);
    }
  }

  /** `image` holds the nearest depth at each pixel. */
  ghost predicate DepthImage(reg: Tables, mms: seq<nat>, order: seq<nat>, image: seq<nat>)
    requires Sized(reg) && |mms| == PIXELS && |image| == PIXELS
    requires forall k :: 0 <= k < |order| ==> order[k] < PIXELS
  {
    forall t :: 0 <= t < PIXELS ==> Nearest(reg, mms, order, |order|, t, image[t])
  }

  lemma ScanIsDepthImage(reg: Tables, mms: seq<nat>, order: seq<nat>)
    requires Sized(reg) && |mms| == PIXELS
    requires forall k :: 0 <= k < |order| ==> order[k] < PIXELS
    ensures DepthImage(reg, mms, order, Scan(reg, mms, order, |order|))
  {
    var image := Scan(reg, mms, order, |order|);
    forall t | 0 <= t < PIXELS ensures Nearest(reg, mms, order, |order|, t, image[t]) {
      ScanIsNearest(reg, mms, order, |order|, t);
    }
  }

  lemma OneDepthImage(reg: Tables, mms: seq<nat>, order: seq<nat>, order': seq<nat>, image: seq<nat>, image': seq<nat>)
    requires Sized(reg) && |mms| == PIXELS && |image| == PIXELS && |image'| == PIXELS
    requires forall k :: 0 <= k < |order| ==> order[k] < PIXELS
    requires forall k :: 0 <= k < |order'| ==> order'[k] < PIXELS
    requires forall i :: i in order <==> i in order'
    requires DepthImage(reg, mms, order, image) && DepthImage(reg, mms, order', image')
    ensures image == image'
  {
    forall t | 0 <= t < PIXELS ensures image[t] == image'[t] {
      SameNearest(reg, mms, order, order', t, image[t], image'[t]);
    }
  }

  /** Scanning the same pixels in another order gives the same image. */
  lemma OrderIrrelevant(reg: Tables, mms: seq<nat>, order: seq<nat>, order': seq<nat>)
    requires Sized(reg) && |mms| == PIXELS
    requires forall k :: 0 <= k < |order| ==> order[k] < PIXELS
    requires forall k :: 0 <= k < |order'| ==> order'[k] < PIXELS
    requires forall i :: i in order <==> i in order'
    ensures Scan(reg, mms, order, |order|) == Scan(reg, mms, order', |order'|)
  {
    ScanIsDepthImage(reg, mms, order);
    ScanIsDepthImage(reg, mms, order');
    OneDepthImage(reg, mms, order, order', Scan(reg, mms, order, |order|), Scan(reg, mms, order', |order'|));
  }

  // ---------------------------------------------------------------- depth frames

  /** A frame of 11-bit values, packed or already unpacked. */
  datatype Frame = Packed(bytes: seq<byte>) | Plain(values: seq<nat>)

  predicate IsFrame(f: Frame) {
    match f
    case Packed(bytes) => 8 * |bytes| >= 11 * PIXELS
    case Plain(values) => |values| == PIXELS && forall i :: 0 <= i < PIXELS ==> values[i] < MAX_RAW
  }

  function RawAt(f: Frame, i: nat): (r: nat)
    requires IsFrame(f) && i < PIXELS
    ensures r < MAX_RAW
  {
    match f
    case Plain(values) => values[i]
    case Packed(bytes) =>
      Field11Bound(bytes, 11 * i);
      Field(bytes, 11 * i, 11)
  }

  lemma Field11Bound(src: seq<byte>, start: nat)
    requires start + 11 <= 8 * |src|
    ensures Field(src, start, 11) < 2048
  {
    FieldBits(src, start, 11);
    HighAndLow(Field(src, start, 11), 11);
    Powers();
  }

  function Depths(reg: Tables, f: Frame): (r: seq<nat>)
    requires Sized(reg) && IsFrame(f)
    ensures |r| == PIXELS
  {
    seq(PIXELS, i requires 0 <= i < PIXELS => reg.rawToMm[RawAt(f, i)])
  }

  /** The reader of packed pixels: a group of eight, the index in it, and the position in the input. */
  datatype Reader = Reader(sourceIndex: nat, at: nat, group: seq<int>)

  ghost predicate Reads(bytes: seq<byte>, r: Reader, idx: nat) {
    && r.sourceIndex <= 8 && InStep(r.sourceIndex, r.at, idx) && r.at <= |bytes|
    && (r.sourceIndex == 8 || Grouped(bytes, r))
  }

  /** The bytes read so far hold the pixels before `idx` and those left in the group. */
  predicate InStep(sourceIndex: nat, at: nat, idx: nat)
    requires sourceIndex <= 8
  {
    8 * at == 11 * (idx + 8 - sourceIndex)
  }

  ghost predicate Grouped(bytes: seq<byte>, r: Reader) {
    |r.group| == 8 && 11 <= r.at <= |bytes| && forall j :: 0 <= j < 8 ==> r.group[j] == InGroup(bytes, r.at - 11, j)
  }

  /** Field `j` of the group that begins at byte `k`. */
  function InGroup(bytes: seq<byte>, k: nat, j: nat): nat
    requires k + 11 <= |bytes| && j < 8
  {
    Field(bytes, 8 * k + 11 * j, 11)
  }

  /** Fetches eight pixels when the group is used up, then takes the next. */
  method NextPixel(bytes: seq<byte>, r: Reader, idx: nat) returns (raw: nat, r': Reader)
    requires Reads(bytes, r, idx) && idx < PIXELS && IsFrame(Packed(bytes))
    ensures raw == RawAt(Packed(bytes), idx) && raw < MAX_RAW
    ensures Reads(bytes, r', idx + 1)
  {
    var full := r;
    if r.sourceIndex == 8 {
      WholeGroup(bytes, idx, r.at);
      full := Reader(0, r.at + 11, UnpackEight(bytes[r.at..r.at + 11]));
      GroupIsFields(bytes, r.at, full.group);
    }
    FromGroup(bytes, full, idx);
    raw := full.group[full.sourceIndex];
    r' := full.(sourceIndex := full.sourceIndex + 1);
  }

  lemma GroupIsFields(bytes: seq<byte>, k: nat, group: seq<int>)
    requires k + 11 <= |bytes| && group == UnpackEight(bytes[k..k + 11])
    ensures forall j :: 0 <= j < 8 ==> group[j] == InGroup(bytes, k, j)
  {
    forall j | 0 <= j < 8 ensures group[j] == InGroup(bytes, k, j) {
      GroupField(bytes, k, j);
    }
  }

  lemma FromGroup(bytes: seq<byte>, r: Reader, idx: nat)
    requires Reads(bytes, r, idx) && r.sourceIndex < 8 && idx < PIXELS && IsFrame(Packed(bytes))
    ensures r.group[r.sourceIndex] == RawAt(Packed(bytes), idx)
    ensures Reads(bytes, r.(sourceIndex := r.sourceIndex + 1), idx + 1)
  {
    assert 8 * (r.at - 11) + 11 * r.sourceIndex == 11 * idx;
    assert r.group[r.sourceIndex] == InGroup(bytes, r.at - 11, r.sourceIndex);
  }

  /** Groups of eight fill the frame exactly, so a whole one is left wherever one begins. */
  lemma WholeGroup(bytes: seq<byte>, idx: nat, at: nat)
    requires InStep(8, at, idx) && idx < PIXELS && IsFrame(Packed(bytes))
    ensures at + 11 <= |bytes| && InStep(0, at + 11, idx)
  {
    assert idx + 8 <= PIXELS;
  }

  ghost predicate Ready(input: Frame, r: Reader, idx: nat) {
    input.Packed? ==> Reads(input.bytes, r, idx)
  }

  /** The value of the next pixel, from either kind of frame. */
  method NextRaw(input: Frame, r: Reader, idx: nat) returns (raw: nat, r': Reader)
    requires Ready(input, r, idx) && idx < PIXELS && IsFrame(input)
    ensures raw == RawAt(input, idx) && Ready(input, r', idx + 1)
  {
    r' := r;
    if input.Plain? {
      raw := input.values[idx];
    } else {
      raw, r' := NextPixel(input.bytes, r, idx);
    }
  }

  // ---------------------------------------------------------------- registration

  function Raster(): (r: seq<nat>)
    ensures |r| == PIXELS && forall k :: 0 <= k < PIXELS ==> r[k] == k
  {
    seq(PIXELS, i => i)
  }

  /** The registered image of a depth image. */
  function Registered(reg: Tables, mms: seq<nat>): (r: seq<nat>)
    requires Sized(reg) && |mms| == PIXELS
    ensures |r| == PIXELS
  {
    Scan(reg, mms, Raster(), PIXELS)
  }

  /**
   * `freenect_apply_registration`, for packed and plain input. The code does not check that a target
   * lies in the image; `inBounds` says whether all do, and at the first that does not the model stops.
   */
  method ApplyRegistration(reg: Tables, input: Frame, output: array<nat>) returns (inBounds: bool)
    requires Sized(reg) && IsFrame(input) && output.Length == PIXELS
    modifies output
    ensures inBounds <==> InImage(reg, Depths(reg, input), PIXELS)
    ensures inBounds ==> output[..] == Registered(reg, Depths(reg, input))
    ensures inBounds ==> DepthImage(reg, Depths(reg, input), Raster(), output[..])
  {
    ghost var mms := Depths(reg, input);
    forall i | 0 <= i < PIXELS {
      output[i] := NO_MM;
    }
    assert output[..] == Empty();
    var r := Reader(8, 0, []);
    for y := 0 to HEIGHT
      invariant Ready(input, r, WIDTH * y) && Scanned(reg, mms, WIDTH * y, output[..])
    {
      inBounds, r := RegisterRow(reg, input, mms, WIDTH * y, r, output);
      if !inBounds {
        return;
      }
    }
    ScanIsDepthImage(reg, mms, Raster());
    return true;
  }

  /** The pixels before `idx` have been scanned. */
  ghost predicate Scanned(reg: Tables, mms: seq<nat>, idx: nat, image: seq<nat>)
    requires Sized(reg) && |mms| == PIXELS && idx <= PIXELS
  {
    image == Scan(reg, mms, Raster(), idx) && InImage(reg, mms, idx)
  }

  /** One row of the scan, from pixel `start`. */
  method RegisterRow(reg: Tables, input: Frame, ghost mms: seq<nat>, start: nat, r: Reader, output: array<nat>)
    returns (inBounds: bool, r': Reader)
    requires Sized(reg) && IsFrame(input) && mms == Depths(reg, input)
    requires start + WIDTH <= PIXELS && output.Length == PIXELS
    requires Ready(input, r, start) && Scanned(reg, mms, start, output[..])
    modifies output
    ensures inBounds ==> Ready(input, r', start + WIDTH) && Scanned(reg, mms, start + WIDTH, output[..])
    ensures !inBounds ==> !InImage(reg, mms, PIXELS)
  {
    r' := r;
    for x := 0 to WIDTH
      invariant Ready(input, r', start + x) && Scanned(reg, mms, start + x, output[..])
    {
      inBounds, r' := RegisterPixel(reg, input, mms, start + x, r', output);
      if !inBounds {
        return;
      }
    }
    inBounds := true;
  }

  method RegisterPixel(reg: Tables, input: Frame, ghost mms: seq<nat>, idx: nat, r: Reader, output: array<nat>)
    returns (put: bool, r': Reader)
    requires Sized(reg) && IsFrame(input) && mms == Depths(reg, input) && idx < PIXELS && output.Length == PIXELS
    requires Ready(input, r, idx) && Scanned(reg, mms, idx, output[..])
    modifies output
    ensures put ==> Ready(input, r', idx + 1) && Scanned(reg, mms, idx + 1, output[..])
    ensures !put ==> !Lies(Target(reg, idx, mms[idx]))
  {
    var raw;
    raw, r' := NextRaw(input, r, idx);
    put := PutPixel(reg, mms, idx, reg.rawToMm[raw], output);
  }

  /** The body of the scan for one pixel. */
  method PutPixel(reg: Tables, ghost mms: seq<nat>, idx: nat, mm: nat, output: array<nat>) returns (put: bool)
    requires Sized(reg) && |mms| == PIXELS && output.Length == PIXELS
    requires idx < PIXELS && mm == mms[idx]
    requires output[..] == Scan(reg, mms, Raster(), idx)
    modifies output
    ensures put <==> Lies(Target(reg, idx, mm))
    ensures put ==> output[..] == Scan(reg, mms, Raster(), idx + 1)
  {
    ghost var before := output[..];
    assert before == Scan(reg, mms, Raster(), idx) && Raster()[idx] == idx;
    if mm == NO_MM || mm >= MAX_MM {
      return true;
    }
    var nx := TruncDiv(reg.regX[idx] + reg.depthToRgb[mm], SCALE);
    var ny := reg.regY[idx];
    if nx < 0 || nx >= WIDTH {
      return true;
    }
    var target := ny * WIDTH + nx - HEIGHT * reg.startLines;
    assert Target(reg, idx, mm) == Some(target);
    if !(0 <= target < PIXELS) {
      return false;
    }
    if output[target] == NO_MM || output[target] > mm {
      output[target] := mm;
    }
    assert output[..] == Put(before, Some(target), mm);
    return true;
  }

  // ---------------------------------------------------------------- millimetres

  function Clamp(mm: nat): nat {
    if mm < MAX_MM then mm else MAX_MM
  }

  /** `freenect_apply_depth_to_mm`. */
  method ApplyDepthToMm(reg: Tables, input: seq<byte>, output: array<nat>)
    requires Sized(reg) && IsFrame(Packed(input)) && output.Length == PIXELS
    modifies output
    ensures forall i :: 0 <= i < PIXELS ==> output[i] == Clamp(Depths(reg, Packed(input))[i])
  {
    var r := Reader(8, 0, []);
    var idx := 0;
    for y := 0 to HEIGHT
      invariant idx == WIDTH * y && Reads(input, r, idx)
      invariant forall i :: 0 <= i < idx ==> output[i] == Clamp(Depths(reg, Packed(input))[i])
    {
      for x := 0 to WIDTH
        invariant idx == WIDTH * y + x && Reads(input, r, idx)
        invariant forall i :: 0 <= i < idx ==> output[i] == Clamp(Depths(reg, Packed(input))[i])
      {
        var raw;
        raw, r := NextPixel(input, r, idx);
        var mm := reg.rawToMm[raw];
        output[idx] := if mm < MAX_MM then mm else MAX_MM;
        idx := idx + 1;
      }
    }
  }

  /** `freenect_apply_depth_unpacked_to_mm`. */
  method ApplyDepthUnpackedToMm(reg: Tables, input: seq<nat>, output: array<nat>)
    requires Sized(reg) && IsFrame(Plain(input)) && output.Length == PIXELS
    modifies output
    ensures forall i :: 0 <= i < PIXELS ==> output[i] == Clamp(Depths(reg, Plain(input))[i])
  {
    for y := 0 to HEIGHT
      invariant forall i :: 0 <= i < WIDTH * y ==> output[i] == Clamp(Depths(reg, Plain(input))[i])
    {
      for x := 0 to WIDTH
        invariant forall i :: 0 <= i < WIDTH * y + x ==> output[i] == Clamp(Depths(reg, Plain(input))[i])
      {
        var bufIndex := y * WIDTH + x;
        var mm := reg.rawToMm[input[bufIndex]];
        output[bufIndex] := if mm < MAX_MM then mm else MAX_MM;
      }
    }
  }

  /**
   * The packed and the unpacked path agree: unpacking a frame first, with the generic loop, gives
   * the same depths, and so the same registered image and the same millimetres.
   */
  lemma PathsAgree(reg: Tables, bytes: seq<byte>, values: seq<nat>)
    requires Sized(reg) && IsFrame(Packed(bytes)) && |values| == PIXELS && Unpacked(bytes, values, 11, 11)
    ensures IsFrame(Plain(values))
    ensures Depths(reg, Packed(bytes)) == Depths(reg, Plain(values))
  {
    forall i | 0 <= i < PIXELS
      ensures values[i] < MAX_RAW && values[i] == RawAt(Packed(bytes), i)
    {
      Times11(i);
      Field11Bound(bytes, 11 * i);
    }
  }

  // ---------------------------------------------------------------- colour to depth

  /** Where the colour of depth pixel `i` is, with the row offset that this function uses. */
  function ColourIndex(reg: Tables, i: nat, wz: nat): Option<int>
    requires Sized(reg) && i < PIXELS && wz < MAX_MM
  {
    if wz == NO_MM then None
    else match Column(reg, i, wz)
      case None => None
      case Some(cx) => Some((reg.regY[i] - reg.startLines * HEIGHT) * WIDTH + cx)
  }

  /**
   * It is the place where registration puts the pixel exactly when there are no padding lines:
   * here the offset is subtracted from the row, there from the index.
   */
  lemma ColourIndexIsTarget(reg: Tables, i: nat, wz: nat)
    requires Sized(reg) && i < PIXELS && wz < MAX_MM && Target(reg, i, wz).Some?
    ensures ColourIndex(reg, i, wz) == Target(reg, i, wz) <==> reg.startLines == 0
  {
  }

  datatype Rgb = Rgb(r: byte, g: byte, b: byte)

  const BLACK := Rgb(0, 0, 0)

  /** The tables by which this function places pixels: as registration does, but with the rows shifted up front. */
  function ColourTables(reg: Tables): (r: Tables)
    requires Sized(reg)
    ensures Sized(r) && r.startLines == 0
    ensures reg.startLines == 0 ==> r == reg
  {
    var rows := seq(PIXELS, i requires 0 <= i < PIXELS => reg.regY[i] - reg.startLines * HEIGHT);
    assert reg.startLines == 0 ==> rows == reg.regY;
    reg.(regY := rows, startLines := 0)
  }

  lemma ColourIndexIsPlace(reg: Tables, i: nat, wz: nat)
    requires Sized(reg) && i < PIXELS && wz < MAX_MM
    ensures ColourIndex(reg, i, wz) == Target(ColourTables(reg), i, wz)
  {
  }

  /** What the code does not check: the first `n` depths are in the table, and their places in the image. */
  predicate Placeable(reg: Tables, depth: seq<nat>, n: nat)
    requires Sized(reg) && |depth| == PIXELS && n <= PIXELS
  {
    (forall i :: 0 <= i < n ==> depth[i] < MAX_MM) && InImage(ColourTables(reg), depth, n)
  }

  /** What the mapped colour of pixel `i` is, given what the destination held before. */
  function Mapped(reg: Tables, depth: seq<nat>, rgb: seq<Rgb>, i: nat, before: Rgb): Rgb
    requires Sized(reg) && |depth| == PIXELS && |rgb| == PIXELS && i < PIXELS && Lies(Target(reg, i, depth[i]))
  {
    match Target(reg, i, depth[i])
    case None => BLACK
    case Some(t) => if depth[i] == Registered(reg, depth)[t] then rgb[t] else before
  }

  /**
   * `freenect_map_rgb_to_depth`: a pixel without a place in the colour image becomes black, one that
   * is nearest at its place gets the colour there, and an occluded one is left as it was. `inBounds`
   * says whether all depths and places are in bounds; where one is not, the model stops before
   * anything is written. Without padding lines the places are those of registration.
   */
  method MapRgbToDepth(reg: Tables, depth: seq<nat>, rgb: seq<Rgb>, out: array<Rgb>) returns (inBounds: bool)
    requires Sized(reg) && |depth| == PIXELS && |rgb| == PIXELS && out.Length == PIXELS
    modifies out
    ensures inBounds <==> Placeable(reg, depth, PIXELS)
    ensures inBounds ==>
              forall i :: 0 <= i < PIXELS ==> out[i] == Mapped(ColourTables(reg), depth, rgb, i, old(out[i]))
    ensures !inBounds ==> out[..] == old(out[..])
  {
    var map_, zBuffer;
    inBounds, map_, zBuffer := FirstPass(reg, depth);
    if !inBounds {
      return;
    }
    ghost var entries, tables := map_[..], ColourTables(reg);
    for i := 0 to PIXELS
      invariant forall k :: 0 <= k < i ==> out[k] == Mapped(tables, depth, rgb, k, old(out[k]))
      invariant forall k :: i <= k < PIXELS ==> out[k] == old(out[k])
      invariant zBuffer[..] == Registered(tables, depth) && map_[..] == entries
    {
      NotBehind(tables, depth, i);
      var cindex := map_[i];
      assert cindex == entries[i] == MapEntry(Target(tables, i, depth[i]));
      if cindex == -1 {
        out[i] := BLACK;
      } else {
        if depth[i] <= zBuffer[cindex] {
          out[i] := rgb[cindex];
        }
      }
    }
  }

  /** How the map of the first pass records a place, or that there is none. */
  function MapEntry(t: Option<int>): int {
    if t.Some? then t.value else -1
  }

  method FirstPass(reg: Tables, depth: seq<nat>) returns (inBounds: bool, map_: array<int>, zBuffer: array<nat>)
    requires Sized(reg) && |depth| == PIXELS
    ensures inBounds <==> Placeable(reg, depth, PIXELS)
    ensures fresh(map_) && fresh(zBuffer) && map_.Length == PIXELS && zBuffer.Length == PIXELS
    ensures inBounds ==> zBuffer[..] == Registered(ColourTables(reg), depth)
    ensures inBounds ==>
              forall i :: 0 <= i < PIXELS ==> map_[i] == MapEntry(Target(ColourTables(reg), i, depth[i]))
  {
    map_ := new int[PIXELS];
    zBuffer := new nat[PIXELS](_ => NO_MM);
    ghost var tables := ColourTables(reg);
    assert zBuffer[..] == Empty();
    for i := 0 to PIXELS
      invariant fresh(map_) && fresh(zBuffer) && map_.Length == PIXELS && zBuffer.Length == PIXELS
      invariant Placeable(reg, depth, i)
      invariant zBuffer[..] == Scan(tables, depth, Raster(), i)
      invariant forall k :: 0 <= k < i ==> map_[k] == MapEntry(Target(tables, k, depth[k]))
    {
      if depth[i] >= MAX_MM {
        return false, map_, zBuffer;
      }
      var placed := PlacePixel(reg, depth, i, map_, zBuffer);
      if !placed {
        return false, map_, zBuffer;
      }
    }
    return true, map_, zBuffer;
  }

  /** The body of the first pass for one pixel. */
  method PlacePixel(reg: Tables, depth: seq<nat>, i: nat, map_: array<int>, zBuffer: array<nat>) returns (placed: bool)
    requires Sized(reg) && |depth| == PIXELS && map_.Length == PIXELS && zBuffer.Length == PIXELS
    requires i < PIXELS && depth[i] < MAX_MM
    requires zBuffer[..] == Scan(ColourTables(reg), depth, Raster(), i)
    modifies map_, zBuffer
    ensures var t := Target(ColourTables(reg), i, depth[i]);
      (placed <==> Lies(t)) && (placed ==> map_[i] == MapEntry(t))
    ensures placed ==> zBuffer[..] == Scan(ColourTables(reg), depth, Raster(), i + 1)
    ensures forall k :: 0 <= k < PIXELS && k != i ==> map_[k] == old(map_[k])
  {
    ghost var before := zBuffer[..];
    assert before == Scan(ColourTables(reg), depth, Raster(), i) && Raster()[i] == i;
    ColourIndexIsPlace(reg, i, depth[i]);
    map_[i] := -1;
    var wz := depth[i];
    if wz == NO_MM {
      return true;
    }
    var cx := TruncDiv(reg.regX[i] + reg.depthToRgb[wz], SCALE);
    var cy := reg.regY[i] - reg.startLines * HEIGHT;
    if cx < 0 || cx >= WIDTH {
      return true;
    }
    var cindex := cy * WIDTH + cx;
    assert ColourIndex(reg, i, wz) == Some(cindex);
    map_[i] := cindex;
    if !(0 <= cindex < PIXELS) {
      return false;
    }
    if zBuffer[cindex] == NO_MM || zBuffer[cindex] > wz {
      zBuffer[cindex] := wz;
    }
    assert zBuffer[..] == Put(before, Some(cindex), wz);
    return true;
  }

  /** The registered depth at a pixel's target is never behind that pixel. */
  lemma NotBehind(reg: Tables, depth: seq<nat>, i: nat)
    requires Sized(reg) && |depth| == PIXELS && i < PIXELS && Lies(Target(reg, i, depth[i]))
    ensures var t := Target(reg, i, depth[i]);
      t.Some? ==> NO_MM < Registered(reg, depth)[t.value] <= depth[i]
  {
    var t := Target(reg, i, depth[i]);
    if t.Some? {
      ScanIsNearest(reg, depth, Raster(), PIXELS, t.value);
      assert Lands(reg, depth, Raster(), i, t.value);
    }
  }
}
