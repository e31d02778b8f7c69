/**
 * The bit unpackers (libfreenect/src/cameras.c and `unpack_8_pixels` of registration.c): packed
 * big-endian fields become one array element each.
 */
module Unpack {
  import opened Arith

  // Shifts and masks of unsigned values. An OR of values that share no bit is written as a sum.

  /** `x << k`, before truncation. */
  function Shl(x: nat, k: nat): nat {
    if k == 0 then x else 2 * Shl(x, k - 1)
  }

  /** `x >> k`. */
  function Shr(x: nat, k: nat): nat {
    if k == 0 then x else Shr(x, k - 1) / 2
  }

  /** `x & ((1 << k) - 1)`: the low `k` bits. */
  function Low(x: nat, k: nat): nat {
    if k == 0 then 0 else 2 * Low(x / 2, k - 1) + x % 2
  }

  function Pow2(k: nat): (r: nat)
    ensures r > 0
  {
    if k == 0 then 1 else 2 * Pow2(k - 1)
  }

  /** Bit number `b` of the big-endian bit string. */
  function Bit(src: seq<byte>, b: nat): nat
    requires b / 8 < |src|
  {
    Shr(src[b / 8], 7 - b % 8) % 2
  }

  /** The number whose binary digits are the `w` bits from `start`. */
  function Field(src: seq<byte>, start: nat, w: nat): nat
    requires start + w <= 8 * |src|
  {
    if w == 0 then 0 else 2 * Field(src, start, w - 1) + Bit(src, start + w - 1)
  }

  // ---------------------------------------------------------------- shifts and masks

  lemma MulTwo(x: nat, p: nat)
    ensures x * (2 * p) == 2 * (x * p)
  {
  }

  lemma {:induction false} ShlIsTimes(x: nat, k: nat)
    ensures Shl(x, k) == x * Pow2(k)
  {
    if k > 0 {
      ShlIsTimes(x, k - 1);
      MulTwo(x, Pow2(k - 1));
    }
  }

  lemma {:induction false} HighAndLow(x: nat, k: nat)
    ensures x == Shl(Shr(x, k), k) + Low(x, k)
    ensures Low(x, k) < Pow2(k)
  {
    if k > 0 {
      HighAndLow(x / 2, k - 1);
      ShrFront(x, k);
    }
  }

  /** The shifts and masks are the arithmetic ones. */
  lemma Meaning(x: nat, k: nat)
    ensures Shl(x, k) == x * Pow2(k) && Shr(x, k) == x / Pow2(k) && Low(x, k) == x % Pow2(k)
  {
    HighAndLow(x, k);
    ShlIsTimes(x, k);
    ShlIsTimes(Shr(x, k), k);
    DivModUnique(x, Shr(x, k), Low(x, k), Pow2(k));
  }

  lemma {:induction false} Fits(x: nat, k: nat)
    requires x < Pow2(k)
    ensures Low(x, k) == x
  {
    if k > 0 {
      Fits(x / 2, k - 1);
    }
  }

  lemma {:induction false} ShrFront(x: nat, k: nat)
    requires k > 0
    ensures Shr(x, k) == Shr(x / 2, k - 1)
  {
    if k > 1 {
      ShrFront(x, k - 1);
    }
  }

  /** Taking the top of a bit buffer: shift, then mask, is mask, then shift. */
  lemma {:induction false} ShiftThenMask(x: nat, r: nat, v: nat)
    ensures Low(Shr(x, r), v) == Shr(Low(x, v + r), r)
  {
    if r > 0 {
      ShrFront(x, r);
      ShrFront(Low(x, v + r), r);
      ShiftThenMask(x / 2, r - 1, v);
    }
  }

  lemma {:induction false} LowOfLow(x: nat, v: nat, w: nat)
    requires v <= w
    ensures Low(Low(x, w), v) == Low(x, v)
  {
    if v > 0 {
      LowOfLow(x / 2, v - 1, w - 1);
    }
  }

  /** The value `x` followed by `k` more bits `y`. */
  lemma {:induction false} Joined(x: nat, y: nat, k: nat, w: nat)
    requires Low(y, k) == y
    ensures Shr(Shl(x, k) + y, k) == x
    ensures Low(Shl(x, k) + y, k) == y
    ensures Low(Shl(x, k) + y, w + k) == Shl(Low(x, w), k) + y
  {
    if k > 0 {
      var z := Shl(x, k) + y;
      assert z / 2 == Shl(x, k - 1) + y / 2 && z % 2 == y % 2;
      assert Low(y / 2, k - 1) == y / 2;
      Joined(x, y / 2, k - 1, w);
      ShrFront(z, k);
    }
  }

  lemma Powers()
    ensures Pow2(0) == 1 && Pow2(1) == 2 && Pow2(2) == 4 && Pow2(3) == 8 && Pow2(4) == 16
    ensures Pow2(5) == 32 && Pow2(6) == 64 && Pow2(7) == 128 && Pow2(8) == 256
    ensures Pow2(9) == 512 && Pow2(10) == 1024 && Pow2(11) == 2048
  {
  }

  // ---------------------------------------------------------------- splitting fields

  lemma {:induction false} FieldBits(src: seq<byte>, start: nat, w: nat)
    requires start + w <= 8 * |src|
    ensures Low(Field(src, start, w), w) == Field(src, start, w)
  {
    if w > 0 {
      FieldBits(src, start, w - 1);
    }
  }

  lemma {:induction false} FieldSplit(src: seq<byte>, start: nat, v: nat, w: nat)
    requires start + v + w <= 8 * |src|
    ensures Field(src, start, v + w) == Shl(Field(src, start, v), w) + Field(src, start + v, w)
  {
    if w > 0 {
      FieldSplit(src, start, v, w - 1);
    }
  }

  lemma BitInByte(src: seq<byte>, k: nat, j: nat)
    requires k < |src| && j < 8
    ensures Bit(src, 8 * k + j) == Shr(src[k], 7 - j) % 2
  {
    DivModUnique(8 * k + j, k, j, 8);
  }

  /** Bits inside one byte. */
  lemma {:induction false} FieldInByte(src: seq<byte>, k: nat, o: nat, w: nat)
    requires k < |src| && o + w <= 8
    ensures Field(src, 8 * k + o, w) == Low(Shr(src[k], 8 - o - w), w)
  {
    if w > 0 {
      FieldInByte(src, k, o, w - 1);
      BitInByte(src, k, o + w - 1);
      LowLast(Shr(src[k], 8 - o - w), w);
    }
  }

  lemma LowLast(x: nat, w: nat)
    requires w > 0
    ensures Low(x, w) == 2 * Low(x / 2, w - 1) + x % 2
  {
  }

  // ---------------------------------------------------------------- the generic loop

  /** The bit buffer holds the `bitsIn` bits that follow bit `start` and end at a byte boundary. */
  ghost predicate Holds(src: seq<byte>, start: nat, buffer: nat, bitsIn: nat, read: nat) {
    && start + bitsIn == 8 * read && read <= |src|
    && Low(buffer, bitsIn) == Field(src, start, bitsIn)
  }

  /** `(buffer << 8) | byte`, in 32 bits. */
  function Push(buffer: nat, b: byte): nat {
    Low(Shl(buffer, 8) + b, 32)
  }

  lemma PushHolds(src: seq<byte>, start: nat, buffer: nat, bitsIn: nat, read: nat)
    requires Holds(src, start, buffer, bitsIn, read) && read < |src| && bitsIn + 8 <= 32
    ensures Holds(src, start, Push(buffer, src[read]), bitsIn + 8, read + 1)
  {
    hide Low, Field;
    Powers();
    Fits(src[read], 8);
    Joined(buffer, src[read], 8, bitsIn);
    LowOfLow(Shl(buffer, 8) + src[read], bitsIn + 8, 32);
    FieldSplit(src, start, bitsIn, 8);
    FieldInByte(src, read, 0, 8);
  }

  /** Shifting and masking take the first `v` bits, and the rest stays in the buffer. */
  lemma TakeHolds(src: seq<byte>, start: nat, buffer: nat, bitsIn: nat, read: nat, v: nat)
    requires Holds(src, start, buffer, bitsIn, read) && v <= bitsIn
    ensures Holds(src, start + v, buffer, bitsIn - v, read)
    ensures Low(Shr(buffer, bitsIn - v), v) == Field(src, start, v)
  {
    hide Low, Field;
    var r := bitsIn - v;
    FieldSplit(src, start, v, r);
    FieldBits(src, start + v, r);
    TopAndRest(buffer, Field(src, start, v), Field(src, start + v, r), v, r);
  }

  /** A buffer whose low `v + r` bits are `x` followed by `r` bits `y`. */
  lemma TopAndRest(buffer: nat, x: nat, y: nat, v: nat, r: nat)
    requires Low(buffer, v + r) == Shl(x, r) + y && Low(y, r) == y
    ensures Low(Shr(buffer, r), v) == x && Low(buffer, r) == y
  {
    Joined(x, y, r, 0);
    ShiftThenMask(buffer, r, v);
    LowOfLow(buffer, r, v + r);
  }

  /** The number of bytes that `n` fields of `vw` bits take. */
  function Bytes(n: nat, vw: nat): nat {
    (Times(n, vw) + 7) / 8
  }

  /** One more value extends what is unpacked. */
  lemma UnpackedNext(src: seq<byte>, values: seq<int>, v: int, vw: nat, w: nat)
    requires Unpacked(src, values, vw, w)
    requires Times(|values|, vw) + w <= 8 * |src| && v == Field(src, Times(|values|, vw), w)
    ensures Unpacked(src, values + [v], vw, w)
  {
  }

  /** The refill loop: bytes are shifted in until a whole field is there. */
  method Refill(src: seq<byte>, ghost start: nat, buffer: nat, bitsIn: nat, read: nat, vw: nat)
    returns (buffer': nat, bitsIn': nat, read': nat)
    requires Holds(src, start, buffer, bitsIn, read) && bitsIn < 8 && vw <= 25
    requires start + vw <= 8 * |src|
    ensures Holds(src, start, buffer', bitsIn', read') && vw <= bitsIn' < vw + 8
  {
    buffer', bitsIn', read' := buffer, bitsIn, read;
    while bitsIn' < vw
      invariant Holds(src, start, buffer', bitsIn', read') && bitsIn' < vw + 8
      decreases vw + 8 - bitsIn'
    {
      PushHolds(src, start, buffer', bitsIn', read');
      buffer' := Push(buffer', src[read']);
      read' := read' + 1;
      bitsIn' := bitsIn' + 8;
    }
  }

  /** One turn of the conversion: refill, take the top `w` of the next `vw` bits, drop all `vw`. */
  method NextField(src: seq<byte>, ghost start: nat, buffer: nat, bitsIn: nat, read: nat, vw: nat, w: nat)
    returns (v: nat, buffer': nat, bitsIn': nat, read': nat)
    requires Holds(src, start, buffer, bitsIn, read) && bitsIn < 8 && w <= vw <= 25
    requires start + vw <= 8 * |src|
    ensures v == Field(src, start, w)
    ensures Holds(src, start + vw, buffer', bitsIn', read') && bitsIn' < 8
  {
    hide Field, Low;
    buffer', bitsIn', read' := Refill(src, start, buffer, bitsIn, read, vw);
    TakeHolds(src, start, buffer', bitsIn', read', w);
    TakeHolds(src, start, buffer', bitsIn', read', vw);
    bitsIn' := bitsIn' - vw;
    v := Low(Shr(buffer', bitsIn' + vw - w), w);
  }

  /** `values` are the first fields of the string, `w` bits from every `vw`-th one. */
  ghost predicate Unpacked(src: seq<byte>, values: seq<int>, vw: nat, w: nat) {
    forall i :: 0 <= i < |values| ==> Times(i, vw) + w <= 8 * |src| && values[i] == Field(src, Times(i, vw), w)
  }

  /** `*(dest++) = v`. */
  method StoreField(src: seq<byte>, dest: array<int>, done: nat, v: int, vw: nat, w: nat)
    requires done < dest.Length && Unpacked(src, dest[..done], vw, w)
    requires Times(done, vw) + w <= 8 * |src| && v == Field(src, Times(done, vw), w)
    modifies dest
    ensures Unpacked(src, dest[..done + 1], vw, w)
    ensures forall i :: done < i < dest.Length ==> dest[i] == old(dest[i])
  {
    UnpackedNext(src, dest[..done], v, vw, w);
    ghost var before := dest[..done];
    dest[done] := v;
    assert dest[..done + 1] == before + [v];
  }

  /** One turn of the loop: the next element is stored. */
  method ConvertNext(src: seq<byte>, dest: array<int>, done: nat, buffer: nat, bitsIn: nat, read: nat, vw: nat, w: nat)
    returns (buffer': nat, bitsIn': nat, read': nat)
    requires w <= vw <= 25 && done < dest.Length && Times(done + 1, vw) <= 8 * |src|
    requires Holds(src, Times(done, vw), buffer, bitsIn, read) && bitsIn < 8
    requires Unpacked(src, dest[..done], vw, w)
    modifies dest
    ensures Holds(src, Times(done + 1, vw), buffer', bitsIn', read') && bitsIn' < 8
    ensures Unpacked(src, dest[..done + 1], vw, w)
    ensures forall i :: done < i < dest.Length ==> dest[i] == old(dest[i])
  {
    var v;
    v, buffer', bitsIn', read' := NextField(src, Times(done, vw), buffer, bitsIn, read, vw, w);
    StoreField(src, dest, done, v, vw, w);
  }

  /** `convert_packed_to_16bit`: element `i` is the field of `vw` bits at bit `i * vw`. */
  method ConvertPackedTo16Bit(src: seq<byte>, dest: array<int>, vw: nat, n: nat) returns (read: nat)
    requires vw <= 16 && Times(n, vw) <= 8 * |src| && n <= dest.Length
    modifies dest
    ensures Unpacked(src, dest[..n], vw, vw) && (forall i :: n <= i < dest.Length ==> dest[i] == old(dest[i]))
    ensures read == Bytes(n, vw)
  {
    var buffer: nat, bitsIn: nat, done: nat := 0, 0, 0;
    read := 0;
    while done < n
      invariant 0 <= done <= n && bitsIn < 8
      invariant Holds(src, Times(done, vw), buffer, bitsIn, read)
      invariant Unpacked(src, dest[..done], vw, vw)
      invariant forall i :: done <= i < dest.Length ==> dest[i] == old(dest[i])
    {
      TimesMonotone(done + 1, n, vw);
      buffer, bitsIn, read := ConvertNext(src, dest, done, buffer, bitsIn, read, vw, vw);
      done := done + 1;
    }
  }

  /** `convert_packed_to_8bit`: element `i` is the top eight of those bits. */
  method ConvertPackedTo8Bit(src: seq<byte>, dest: array<int>, vw: nat, n: nat) returns (read: nat)
    requires 8 <= vw <= 25 && Times(n, vw) <= 8 * |src| && n <= dest.Length
    modifies dest
    ensures Unpacked(src, dest[..n], vw, 8) && (forall i :: n <= i < dest.Length ==> dest[i] == old(dest[i]))
    ensures read == Bytes(n, vw)
  {
    var buffer: nat, bitsIn: nat, done: nat := 0, 0, 0;
    read := 0;
    while done < n
      invariant 0 <= done <= n && bitsIn < 8
      invariant Holds(src, Times(done, vw), buffer, bitsIn, read)
      invariant Unpacked(src, dest[..done], vw, 8)
      invariant forall i :: done <= i < dest.Length ==> dest[i] == old(dest[i])
    {
      TimesMonotone(done + 1, n, vw);
      buffer, bitsIn, read := ConvertNext(src, dest, done, buffer, bitsIn, read, vw, 8);
      done := done + 1;
    }
  }

  /** The eight-bit conversion drops the low bits of what the sixteen-bit one yields. */
  lemma EightBitIsTop(src: seq<byte>, start: nat, vw: nat)
    requires 8 <= vw && start + vw <= 8 * |src|
    ensures Field(src, start, 8) == Shr(Field(src, start, vw), vw - 8)
  {
    hide Field, Shr;
    var r := vw - 8;
    FieldSplit(src, start, 8, r);
    FieldBits(src, start + 8, r);
    var x, y := Field(src, start, 8), Field(src, start + 8, r);
    Joined(x, y, r, 0);
  }

  // ---------------------------------------------------------------- the unrolled 11-bit form

  lemma {:induction false} ShrFits(x: nat, r: nat, v: nat)
    requires x < Pow2(r + v)
    ensures Low(Shr(x, r), v) == Shr(x, r)
  {
    ShiftThenMask(x, r, v);
    Fits(x, v + r);
  }

  /** Eight fields from eleven bytes, as the unrolled code computes them; `& 0x7FF` is `% 2048`. */
  function UnpackEight(r: seq<byte>): (f: seq<int>)
    requires |r| == 11
    ensures |f| == 8
  {
    var r0: nat, r1: nat, r2: nat, r3: nat := r[0], r[1], r[2], r[3];
    var r4: nat, r5: nat, r6: nat, r7: nat := r[4], r[5], r[6], r[7];
    var r8: nat, r9: nat, r10: nat := r[8], r[9], r[10];
    [
      r0 * 8 + r1 / 32,
      (r1 * 64 + r2 / 4) % 2048,
      (r2 * 512 + r3 * 2 + r4 / 128) % 2048,
      (r4 * 16 + r5 / 16) % 2048,
      (r5 * 128 + r6 / 2) % 2048,
      (r6 * 1024 + r7 * 4 + r8 / 64) % 2048,
      (r8 * 32 + r9 / 8) % 2048,
      (r9 * 256 + r10) % 2048
    ]
  }

  /** The shifts and masks by a known amount. */
  lemma Const(x: nat, k: nat, p: nat)
    requires Pow2(k) == p
    ensures Shl(x, k) == x * p && Shr(x, k) == x / p && Low(x, k) == x % p
  {
    Meaning(x, k);
  }

  lemma TailOfByte(src: seq<byte>, k: nat, w: nat)
    requires k < |src| && w <= 8
    ensures Field(src, 8 * k + (8 - w), w) == Low(src[k], w)
  {
    FieldInByte(src, k, 8 - w, w);
  }

  lemma HeadOfByte(src: seq<byte>, k: nat, w: nat)
    requires k < |src| && w <= 8
    ensures Field(src, 8 * k, w) == Shr(src[k], 8 - w)
  {
    FieldInByte(src, k, 0, w);
    Powers();
    ShrFits(src[k], 8 - w, w);
  }

  /** Eleven bits that end in the next byte. */
  lemma InTwoBytes(src: seq<byte>, k: nat, o: nat)
    requires o <= 5 && k + 2 <= |src|
    ensures Field(src, 8 * k + o, 11) == Shl(Low(src[k], 8 - o), 3 + o) + Shr(src[k + 1], 5 - o)
  {
    hide Field;
    FieldSplit(src, 8 * k + o, 8 - o, 3 + o);
    TailOfByte(src, k, 8 - o);
    HeadOfByte(src, k + 1, 3 + o);
  }

  /** Eleven bits that end in the byte after the next. */
  lemma InThreeBytes(src: seq<byte>, k: nat, o: nat)
    requires 6 <= o < 8 && k + 3 <= |src|
    ensures Field(src, 8 * k + o, 11) ==
            Shl(Shl(Low(src[k], 8 - o), 8) + src[k + 1], o - 5) + Shr(src[k + 2], 13 - o)
  {
    hide Field, Shl, Shr;
    FirstTwo(src, k, o);
    FieldSplit(src, 8 * k + o, 16 - o, o - 5);
    HeadOfByte(src, k + 2, o - 5);
  }

  lemma FirstTwo(src: seq<byte>, k: nat, o: nat)
    requires o < 8 && k + 2 <= |src|
    ensures Field(src, 8 * k + o, 16 - o) == Shl(Low(src[k], 8 - o), 8) + src[k + 1]
  {
    hide Field, Shl;
    FieldSplit(src, 8 * k + o, 8 - o, 8);
    TailOfByte(src, k, 8 - o);
    HeadOfByte(src, k + 1, 8);
  }

  /** Masking the whole sum keeps the low bits of the leading byte, and all of what follows it. */
  lemma Masked(x: nat, m: nat, p: nat, low: nat)
    requires m > 0 && m * p == 2048 && low < p
    ensures (x * p + low) % 2048 == (x % m) * p + low
  {
    var q := x / m;
    assert x == q * m + x % m;
    assert x * p == q * (m * p) + (x % m) * p;
    MulMonotone(x % m, m - 1, p);
    DivModUnique(x * p + low, q, (x % m) * p + low, 2048);
  }

  lemma TwoBytes(src: seq<byte>, k: nat, o: nat, m: nat, p: nat, q: nat)
    requires o <= 5 && k + 2 <= |src| && Pow2(8 - o) == m && Pow2(3 + o) == p && Pow2(5 - o) == q
    ensures Field(src, 8 * k + o, 11) == (src[k] % m) * p + src[k + 1] / q
  {
    InTwoBytes(src, k, o);
    Const(src[k], 8 - o, m);
    Const(Low(src[k], 8 - o), 3 + o, p);
    Const(src[k + 1], 5 - o, q);
  }

  lemma ThreeBytes(src: seq<byte>, k: nat, o: nat, m: nat, e: nat, p: nat, q: nat)
    requires 6 <= o < 8 && k + 3 <= |src|
    requires Pow2(8 - o) == m && Pow2(8) == e && Pow2(o - 5) == p && Pow2(13 - o) == q
    ensures Field(src, 8 * k + o, 11) == ((src[k] % m) * e + src[k + 1]) * p + src[k + 2] / q
  {
    InThreeBytes(src, k, o);
    Const(src[k], 8 - o, m);
    Const(Low(src[k], 8 - o), 8, e);
    Const(Shl(Low(src[k], 8 - o), 8) + src[k + 1], o - 5, p);
    Const(src[k + 2], 13 - o, q);
  }

  // The eight fields of a group, by the position of the first bit in its byte: 0, 3, 6, 1, 4, 7, 2 and 5.

  lemma GroupField0(src: seq<byte>, k: nat)
    requires k + 2 <= |src|
    ensures Field(src, 8 * k, 11) == src[k] as int * 8 + src[k + 1] / 32
  {
    Powers();
    TwoBytes(src, k, 0, 256, 8, 32);
  }

  lemma GroupField1(src: seq<byte>, k: nat)
    requires k + 2 <= |src|
    ensures Field(src, 8 * k + 3, 11) == (src[k] as int * 64 + src[k + 1] / 4) % 2048
  {
    Powers();
    TwoBytes(src, k, 3, 32, 64, 4);
    Masked(src[k], 32, 64, src[k + 1] / 4);
  }

  lemma GroupField2(src: seq<byte>, k: nat)
    requires k + 3 <= |src|
    ensures Field(src, 8 * k + 6, 11) == (src[k] as int * 512 + src[k + 1] as int * 2 + src[k + 2] / 128) % 2048
  {
    Powers();
    ThreeBytes(src, k, 6, 4, 256, 2, 128);
    Masked(src[k], 4, 512, src[k + 1] as int * 2 + src[k + 2] / 128);
  }

  lemma GroupField3(src: seq<byte>, k: nat)
    requires k + 2 <= |src|
    ensures Field(src, 8 * k + 1, 11) == (src[k] as int * 16 + src[k + 1] / 16) % 2048
  {
    Powers();
    TwoBytes(src, k, 1, 128, 16, 16);
    Masked(src[k], 128, 16, src[k + 1] / 16);
  }

  lemma GroupField4(src: seq<byte>, k: nat)
    requires k + 2 <= |src|
    ensures Field(src, 8 * k + 4, 11) == (src[k] as int * 128 + src[k + 1] / 2) % 2048
  {
    Powers();
    TwoBytes(src, k, 4, 16, 128, 2);
    Masked(src[k], 16, 128, src[k + 1] / 2);
  }

  lemma GroupField5(src: seq<byte>, k: nat)
    requires k + 3 <= |src|
    ensures Field(src, 8 * k + 7, 11) == (src[k] as int * 1024 + src[k + 1] as int * 4 + src[k + 2] / 64) % 2048
  {
    Powers();
    ThreeBytes(src, k, 7, 2, 256, 4, 64);
    Masked(src[k], 2, 1024, src[k + 1] as int * 4 + src[k + 2] / 64);
  }

  lemma GroupField6(src: seq<byte>, k: nat)
    requires k + 2 <= |src|
    ensures Field(src, 8 * k + 2, 11) == (src[k] as int * 32 + src[k + 1] / 8) % 2048
  {
    Powers();
    TwoBytes(src, k, 2, 64, 32, 8);
    Masked(src[k], 64, 32, src[k + 1] / 8);
  }

  lemma GroupField7(src: seq<byte>, k: nat)
    requires k + 2 <= |src|
    ensures Field(src, 8 * k + 5, 11) == (src[k] as int * 256 + src[k + 1]) % 2048
  {
    Powers();
    TwoBytes(src, k, 5, 8, 256, 1);
    Masked(src[k], 8, 256, src[k + 1]);
  }

  lemma {:induction false} Times11(n: nat)
    ensures Times(n, 11) == 11 * n
  {
    TimesIsProduct(n, 11);
  }

  /** The unrolled expressions are the fields of the bit string. */
  lemma GroupField(src: seq<byte>, k: nat, j: nat)
    requires k + 11 <= |src| && j < 8
    ensures UnpackEight(src[k..k + 11])[j] == Field(src, 8 * k + 11 * j, 11)
  {
    var r := src[k..k + 11];
    if j < 4 {
      FirstFour(src, k, r, j);
    } else {
      LastFour(src, k, r, j);
    }
  }

  lemma FirstFour(src: seq<byte>, k: nat, r: seq<byte>, j: nat)
    requires k + 11 <= |src| && r == src[k..k + 11] && j < 4
    ensures UnpackEight(r)[j] == Field(src, 8 * k + 11 * j, 11)
  {
    hide Field;
    if j == 0 {
      GroupField0(src, k);
    } else if j == 1 {
      GroupField1(src, k + 1);
    } else if j == 2 {
      GroupField2(src, k + 2);
    } else {
      GroupField3(src, k + 4);
    }
  }

  lemma LastFour(src: seq<byte>, k: nat, r: seq<byte>, j: nat)
    requires k + 11 <= |src| && r == src[k..k + 11] && 4 <= j < 8
    ensures UnpackEight(r)[j] == Field(src, 8 * k + 11 * j, 11)
  {
    hide Field;
    if j == 4 {
      GroupField4(src, k + 5);
    } else if j == 5 {
      GroupField5(src, k + 6);
    } else if j == 6 {
      GroupField6(src, k + 8);
    } else {
      GroupField7(src, k + 9);
    }
  }

  /** Eight more values, from the eleven bytes they occupy. */
  lemma UnpackedEight(src: seq<byte>, values: seq<int>, k: nat)
    requires Unpacked(src, values, 11, 11) && 11 * |values| == 8 * k && k + 11 <= |src|
    ensures Unpacked(src, values + UnpackEight(src[k..k + 11]), 11, 11)
  {
    var all := values + UnpackEight(src[k..k + 11]);
    var n := |values|;
    forall i | 0 <= i < |all|
      ensures Times(i, 11) + 11 <= 8 * |src| && all[i] == Field(src, Times(i, 11), 11)
    {
      Times11(i);
      if i >= n {
        GroupField(src, k, i - n);
        assert 8 * k + 11 * (i - n) == 11 * i;
      }
    }
  }

  /**
   * `convert_packed11_to_16bit`, which handles as many whole groups of eight as there are: for `n`
   * a multiple of 8 its output is that of `ConvertPackedTo16Bit(src, dest, 11, n)`.
   */
  method ConvertPacked11To16Bit(raw: seq<byte>, frame: array<int>, n: nat)
    requires Times(n, 11) <= 8 * |raw| && n <= frame.Length
    modifies frame
    ensures var m := n - n % 8;
      Unpacked(raw, frame[..m], 11, 11) && forall i :: m <= i < frame.Length ==> frame[i] == old(frame[i])
  {
    Times11(n);
    var left: nat, at: nat, done: nat := n, 0, 0;
    ghost var groups := 0;
    while left >= 8
      invariant left + done == n && at == 11 * groups && done == 8 * groups
      invariant Unpacked(raw, frame[..done], 11, 11)
      invariant forall i :: done <= i < frame.Length ==> frame[i] == old(frame[i])
    {
      StoreEight(raw, frame, at, done);
      left := left - 8;
      at := at + 11;
      done := done + 8;
      groups := groups + 1;
    }
    DivModUnique(n, groups, left, 8);
  }

  method StoreEight(raw: seq<byte>, frame: array<int>, at: nat, done: nat)
    requires at + 11 <= |raw| && done + 8 <= frame.Length && 11 * done == 8 * at
    requires Unpacked(raw, frame[..done], 11, 11)
    modifies frame
    ensures Unpacked(raw, frame[..done + 8], 11, 11)
    ensures forall i :: done + 8 <= i < frame.Length ==> frame[i] == old(frame[i])
  {
    var f := UnpackEight(raw[at..at + 11]);
    UnpackedEight(raw, frame[..done], at);
    ghost var before := frame[..done];
    forall i | 0 <= i < 8 {
      frame[done + i] := f[i];
    }
    assert frame[..done + 8] == before + f;
  }
}
