/**
 * The Bayer demosaic (libfreenect/src/cameras.c, `convert_bayer_to_rgb`): two 32-bit shift
 * registers and three walking row pointers, against a direct stencil for each pixel.
 */
module Bayer {
  import opened Arith

  datatype Rgb = Rgb(r: int, g: int, b: int)

  // ---------------------------------------------------------------- the stencil

  /** The row or column before `i`; the first one is mirrored. */
  function Before(i: nat): nat {
    if i == 0 then 1 else i - 1
  }

  /** The row or column after `i` of `n`; the last one is mirrored. */
  function After(i: nat, n: nat): nat
    requires n >= 2 && i < n
  {
    if i == n - 1 then n - 2 else i + 1
  }

  /** An image of `h` rows of `w` pixels. */
  datatype Image = Image(raw: seq<byte>, w: nat, h: nat) {
    ghost predicate Valid() {
      w >= 2 && h >= 3 && |raw| == Times(h, w)
    }

    lemma Inside(x: nat, y: nat)
      requires Valid() && x < w && y < h
      ensures Times(y, w) + w <= |raw|
    {
      TimesMonotone(y + 1, h, w);
    }

    function At(x: nat, y: nat): byte
      requires Valid() && x < w && y < h
    {
      Inside(x, y);
      raw[Times(y, w) + x]
    }

    /** The average of the two pixels above and below. */
    function Vertical(x: nat, y: nat): (r: nat)
      requires Valid() && x < w && y < h
      ensures r < 256
    {
      (At(x, Before(y)) + At(x, After(y, h)) as int) / 2
    }

    /** The average of the two pixels left and right. */
    function Horizontal(x: nat, y: nat): (r: nat)
      requires Valid() && x < w && y < h
      ensures r < 256
    {
      (At(Before(x), y) + At(After(x, w), y) as int) / 2
    }

    /** The average of the four diagonal neighbours. */
    function Diagonal(x: nat, y: nat): nat
      requires Valid() && x < w && y < h
    {
      (Vertical(Before(x), y) + Vertical(After(x, w), y)) / 2
    }

    /** The average of the four direct neighbours. */
    function Cross(x: nat, y: nat): nat
      requires Valid() && x < w && y < h
    {
      (Horizontal(x, y) + Vertical(x, y)) / 2
    }

    /** The four pixel configurations of the pattern. */
    function Pixel(x: nat, y: nat): Rgb
      requires Valid() && x < w && y < h
    {
      if y % 2 == 0 then
        if x % 2 == 0 then Rgb(Horizontal(x, y), At(x, y), Vertical(x, y))
        else Rgb(At(x, y), Cross(x, y), Diagonal(x, y))
      else
        if x % 2 == 0 then Rgb(Diagonal(x, y), Cross(x, y), At(x, y))
        else Rgb(Vertical(x, y), At(x, y), Horizontal(x, y))
    }
  }

  /** Both averages lose a half, and so does their average. */
  predicate LosesTwice(a: nat, b: nat, c: nat, d: nat) {
    (a + b) % 2 == 1 && (c + d) % 2 == 1 && ((a + b) / 2 + (c + d) / 2) % 2 == 1
  }

  /** An average of two rounded averages is the rounded-down mean of the four values, or one less. */
  lemma MeanOfFour(a: nat, b: nat, c: nat, d: nat)
    ensures var got, exact := ((a + b) / 2 + (c + d) / 2) / 2, (a + b + c + d) / 4;
      got == if LosesTwice(a, b, c, d) then exact - 1 else exact
  {
  }

  /** The green of a red or blue pixel is the mean of its four green neighbours, unless it loses twice. */
  lemma CrossIsMean(m: Image, x: nat, y: nat, l: nat, r: nat, u: nat, d: nat)
    requires m.Valid() && x < m.w && y < m.h
    requires l == m.At(Before(x), y) && r == m.At(After(x, m.w), y)
    requires u == m.At(x, Before(y)) && d == m.At(x, After(y, m.h))
    ensures m.Cross(x, y) == (l + r + u + d) / 4 - if LosesTwice(l, r, u, d) then 1 else 0
  {
    MeanOfFour(l, r, u, d);
  }

  /** So is the colour taken from the diagonal. */
  lemma DiagonalIsMean(m: Image, x: nat, y: nat, lu: nat, ld: nat, ru: nat, rd: nat)
    requires m.Valid() && x < m.w && y < m.h
    requires lu == m.At(Before(x), Before(y)) && ld == m.At(Before(x), After(y, m.h))
    requires ru == m.At(After(x, m.w), Before(y)) && rd == m.At(After(x, m.w), After(y, m.h))
    ensures m.Diagonal(x, y) == (lu + ld + ru + rd) / 4 - if LosesTwice(lu, ld, ru, rd) then 1 else 0
  {
    MeanOfFour(lu, ld, ru, rd);
  }

  /** A pixel that gets 0 for both colours, where the neighbours have the mean 1. */
  lemma LowByOne(m: Image)
    requires m == Image([0, 1, 1, 1,
                         0, 1, 0, 0,
                         0, 0, 2, 2], 4, 3)
    ensures m.Valid() && m.Pixel(2, 1) == Rgb(0, 0, 0)
    ensures (m.At(1, 1) as int + m.At(3, 1) + m.At(2, 0) + m.At(2, 2)) / 4 == 1
    ensures (m.At(1, 0) as int + m.At(1, 2) + m.At(3, 0) + m.At(3, 2)) / 4 == 1
  {
  }

  // ---------------------------------------------------------------- the shift registers

  // A register holds the previous, current and next values in its three low bytes; the fourth
  // receives what is shifted out. `(uint8_t)(vals >> 16)`, `(uint8_t)(vals >> 8)`, `(uint8_t)vals`:

  function Prev(vals: nat): nat { (vals / 0x1_0000) % 256 }

  function Cur(vals: nat): nat { (vals / 0x100) % 256 }

  function Next(vals: nat): nat { vals % 256 }

  /** `vals <<= 8`, in 32 bits. */
  function Shifted(vals: nat): nat { (vals * 256) % 0x1_0000_0000 }

  /** A new next value fills the empty low byte. */
  lemma FillNext(v: nat, n: byte)
    requires Next(v) == 0
    ensures Prev(v + n) == Prev(v) && Cur(v + n) == Cur(v) && Next(v + n) == n
  {
    var q := v / 0x100;
    DivModUnique(v + n, q, n, 0x100);
    DivModUnique(v + n, q / 0x100, (q % 0x100) * 0x100 + n, 0x1_0000);
    DivModUnique(v, q / 0x100, (q % 0x100) * 0x100, 0x1_0000);
  }

  /** Shifting moves the current value to previous and the next one to current. */
  lemma ShiftMoves(v: nat)
    ensures Prev(Shifted(v)) == Cur(v) && Cur(Shifted(v)) == Next(v) && Next(Shifted(v)) == 0
  {
    var q, n := v / 0x100, v % 0x100;
    var q2, c := q / 0x100, q % 0x100;
    var q3, p := q2 / 0x100, q2 % 0x100;
    var low := p * 0x100_0000 + c * 0x1_0000 + n * 0x100;
    DivModUnique(v * 256, q3, low, 0x1_0000_0000);
    DivModUnique(low, p * 0x100 + c, n * 0x100, 0x1_0000);
    DivModUnique(low, p * 0x1_0000 + c * 0x100 + n, 0, 0x100);
    DivModUnique(p * 0x100 + c, p, c, 0x100);
    DivModUnique(p * 0x1_0000 + c * 0x100 + n, p * 0x100 + c, n, 0x100);
  }

  /** The first two columns, the second one mirrored to the left. */
  lemma FirstLoad(cur: byte, prev: byte)
    ensures var v := (cur as int) * 0x100 + (prev as int) * 0x1_0000;
      Prev(v) == prev && Cur(v) == cur && Next(v) == 0
  {
    var c: int, p: int := cur, prev;
    DivModUnique(p * 0x1_0000 + c * 0x100, p, c * 0x100, 0x1_0000);
    DivModUnique(p * 0x1_0000 + c * 0x100, p * 0x100 + c, 0, 0x100);
    DivModUnique(p * 0x100 + c, p, c, 0x100);
  }

  // ---------------------------------------------------------------- the conversion

  /** The first `n` pixels, in row order, are those of the stencil. */
  ghost predicate Written(m: Image, dst: seq<int>, y: nat, x: nat)
    requires m.Valid() && y < m.h && x <= m.w
  {
    var row := Times(y, m.w);
    && 3 * (row + x) <= |dst|
    && forall k :: 0 <= k < x ==> PixelAt(dst, row + k) == m.Pixel(k, y)
  }

  function PixelAt(dst: seq<int>, i: nat): Rgb
    requires 3 * i + 3 <= |dst|
  {
    Rgb(dst[3 * i], dst[3 * i + 1], dst[3 * i + 2])
  }

  /** The three stores of one pixel. */
  method Store(dst: array<int>, i: nat, p: Rgb)
    requires 3 * i + 3 <= dst.Length
    modifies dst
    ensures PixelAt(dst[..], i) == p
    ensures forall j :: 0 <= j < dst.Length && !(3 * i <= j < 3 * i + 3) ==> dst[j] == old(dst[j])
  {
    dst[3 * i], dst[3 * i + 1], dst[3 * i + 2] := p.r, p.g, p.b;
  }

  /** What the four configurations compute from the registers. */
  function FromRegisters(yOdd: bool, xOdd: bool, hSum: nat, hVals: nat, vSums: nat, vMean: nat): Rgb {
    if !yOdd then
      if !xOdd then Rgb(hSum, Cur(hVals), Cur(vSums))
      else Rgb(Cur(hVals), (hSum + Cur(vSums)) / 2, vMean)
    else
      if !xOdd then Rgb(vMean, (hSum + Cur(vSums)) / 2, Cur(hVals))
      else Rgb(Cur(vSums), Cur(hVals), hSum)
  }

  /** What the registers hold before column `x` is read ahead: the left and the current values. */
  ghost predicate Loaded(m: Image, x: nat, y: nat, hVals: nat, vSums: nat)
    requires m.Valid() && x < m.w && y < m.h
  {
    && Prev(hVals) == m.At(Before(x), y) && Cur(hVals) == m.At(x, y) && Next(hVals) == 0
    && Prev(vSums) == m.Vertical(Before(x), y) && Cur(vSums) == m.Vertical(x, y) && Next(vSums) == 0
  }

  /** One column: the next values complete the registers, which then give the stencil and move on. */
  lemma ColumnStep(m: Image, x: nat, y: nat, hVals: nat, vSums: nat)
    requires m.Valid() && x < m.w - 1 && y < m.h && Loaded(m, x, y, hVals, vSums)
    ensures var h, v := hVals + m.At(x + 1, y), vSums + m.Vertical(x + 1, y);
      var hSum := (Prev(h) + Next(h)) / 2;
      && FromRegisters(y % 2 == 1, x % 2 == 1, hSum, h, v, (Prev(v) + Next(v)) / 2) == m.Pixel(x, y)
      && Loaded(m, x + 1, y, Shifted(h), Shifted(v))
  {
    FillNext(hVals, m.At(x + 1, y));
    FillNext(vSums, m.Vertical(x + 1, y));
    ShiftMoves(hVals + m.At(x + 1, y));
    ShiftMoves(vSums + m.Vertical(x + 1, y));
  }

  /** The right border: the registers' own left values stand in for the missing column. */
  lemma LastColumn(m: Image, y: nat, hVals: nat, vSums: nat)
    requires m.Valid() && y < m.h && Loaded(m, m.w - 1, y, hVals, vSums)
    ensures var h, v := hVals + Prev(hVals), vSums + Prev(vSums);
      FromRegisters(y % 2 == 1, (m.w - 1) % 2 == 1, Next(h), h, v, Next(v)) == m.Pixel(m.w - 1, y)
  {
    FillNext(hVals, Prev(hVals));
    FillNext(vSums, Prev(vSums));
  }

  /** The first two columns, loaded with the mirrored left border. */
  method InitRegisters(m: Image, y: nat, prevLine: nat, curLine: nat, nextLine: nat) returns (hVals: nat, vSums: nat)
    requires m.Valid() && y < m.h
    requires prevLine == Times(Before(y), m.w) && curLine == Times(y, m.w) && nextLine == Times(After(y, m.h), m.w)
    ensures Loaded(m, 0, y, hVals, vSums)
  {
    hide Times, Prev;
    m.Inside(1, y);
    m.Inside(1, Before(y));
    m.Inside(1, After(y, m.h));
    var p0: nat, p1: nat := m.raw[prevLine], m.raw[prevLine + 1];
    var c0: nat, c1: nat := m.raw[curLine], m.raw[curLine + 1];
    var n0: nat, n1: nat := m.raw[nextLine], m.raw[nextLine + 1];
    hVals := c0 * 0x100 + c1 * 0x1_0000;
    FirstLoad(c0, c1);
    vSums := ((p0 + n0) / 2) * 0x100 + ((p1 + n1) / 2) * 0x1_0000;
    FirstLoad(m.Vertical(0, y), m.Vertical(1, y));
  }

  /** One pass of the column loop, with the three pointers at column `x + 1`. */
  method ConvertColumn(m: Image, dst: array<int>, x: nat, y: nat, prevLine: nat, curLine: nat, nextLine: nat,
                       hVals: nat, vSums: nat) returns (hVals': nat, vSums': nat)
    requires m.Valid() && y < m.h && x < m.w - 1 && dst.Length >= 3 * |m.raw|
    requires prevLine == Times(Before(y), m.w) + x + 1 && curLine == Times(y, m.w) + x + 1
    requires nextLine == Times(After(y, m.h), m.w) + x + 1
    requires Loaded(m, x, y, hVals, vSums) && Written(m, dst[..], y, x)
    modifies dst
    ensures Loaded(m, x + 1, y, hVals', vSums') && Written(m, dst[..], y, x + 1)
    ensures var i := Times(y, m.w) + x;
      forall j :: 0 <= j < dst.Length && !(3 * i <= j < 3 * i + 3) ==> dst[j] == old(dst[j])
  {
    hide Times, Loaded, Prev, Next, FromRegisters;
    m.Inside(x + 1, y);
    m.Inside(x + 1, Before(y));
    m.Inside(x + 1, After(y, m.h));
    ColumnStep(m, x, y, hVals, vSums);
    var above: nat, below: nat := m.raw[prevLine], m.raw[nextLine];
    var h := hVals + m.raw[curLine];
    var v := vSums + (above + below) / 2;
    assert h == hVals + m.At(x + 1, y) && v == vSums + m.Vertical(x + 1, y);
    var hSum := (Prev(h) + Next(h)) / 2;
    StorePixel(m, dst, x, y, FromRegisters(y % 2 == 1, x % 2 == 1, hSum, h, v, (Prev(v) + Next(v)) / 2));
    hVals' := Shifted(h);
    vSums' := Shifted(v);
  }

  /** One row: `*(p++)` reads and the pixels of the row; the pointers end at the next row. */
  method ConvertRow(m: Image, dst: array<int>, y: nat, prev: nat, cur: nat, next: nat)
    returns (prevLine: nat, curLine: nat, nextLine: nat)
    requires m.Valid() && y < m.h && dst.Length >= 3 * |m.raw|
    requires prev == Times(Before(y), m.w) && cur == Times(y, m.w) && next == Times(After(y, m.h), m.w)
    modifies dst
    ensures prevLine == prev + m.w && curLine == cur + m.w && nextLine == next + m.w
    ensures Written(m, dst[..], y, m.w)
    ensures forall j :: 0 <= j < dst.Length && !(3 * cur <= j < 3 * (cur + m.w)) ==> dst[j] == old(dst[j])
  {
    hide Times, Loaded, Prev;
    m.Inside(1, y);
    m.Inside(1, Before(y));
    m.Inside(1, After(y, m.h));
    var hVals: nat, vSums: nat := InitRegisters(m, y, prev, cur, next);
    prevLine, curLine, nextLine := prev + 1, cur + 1, next + 1;
    var x := 0;
    while x < m.w - 1
      invariant 0 <= x <= m.w - 1
      invariant prevLine == prev + x + 1 && curLine == cur + x + 1 && nextLine == next + x + 1
      invariant Loaded(m, x, y, hVals, vSums)
      invariant Written(m, dst[..], y, x)
      invariant forall j :: 0 <= j < dst.Length && !(3 * cur <= j < 3 * (cur + x)) ==> dst[j] == old(dst[j])
    {
      hVals, vSums := ConvertColumn(m, dst, x, y, prevLine, curLine, nextLine, hVals, vSums);
      prevLine, curLine, nextLine := prevLine + 1, curLine + 1, nextLine + 1;
      x := x + 1;
    }
    LastColumn(m, y, hVals, vSums);
    hVals := hVals + Prev(hVals);
    vSums := vSums + Prev(vSums);
    StorePixel(m, dst, x, y, FromRegisters(y % 2 == 1, x % 2 == 1, Next(hVals), hVals, vSums, Next(vSums)));
  }

  method StorePixel(m: Image, dst: array<int>, x: nat, y: nat, p: Rgb)
    requires m.Valid() && y < m.h && x < m.w && dst.Length >= 3 * |m.raw|
    requires Written(m, dst[..], y, x) && p == m.Pixel(x, y)
    modifies dst
    ensures Written(m, dst[..], y, x + 1)
    ensures var i := Times(y, m.w) + x;
      forall j :: 0 <= j < dst.Length && !(3 * i <= j < 3 * i + 3) ==> dst[j] == old(dst[j])
  {
    m.Inside(x, y);
    ghost var before := dst[..];
    Store(dst, Times(y, m.w) + x, p);
    WrittenNext(m, before, dst[..], x, y, Times(y, m.w));
  }

  lemma WrittenNext(m: Image, a: seq<int>, b: seq<int>, x: nat, y: nat, row: nat)
    requires m.Valid() && y < m.h && x < m.w && row == Times(y, m.w) && Written(m, a, y, x)
    requires |a| == |b| && 3 * (row + x) + 3 <= |b| && PixelAt(b, row + x) == m.Pixel(x, y)
    requires forall j :: 0 <= j < 3 * (row + x) ==> b[j] == a[j]
    ensures Written(m, b, y, x + 1)
  {
    hide Times, Before;
    forall k | 0 <= k < x ensures PixelAt(b, row + k) == m.Pixel(k, y) {
      assert PixelAt(a, row + k) == m.Pixel(k, y);
    }
  }

  /** The rows of the stencil, in order, and nothing after them. */
  ghost predicate Rows(m: Image, dst: seq<int>, n: nat)
    requires m.Valid() && n <= m.h
  {
    forall y :: 0 <= y < n ==> Written(m, dst, y, m.w)
  }

  /** `convert_bayer_to_rgb`: exactly the `3 * w * h` bytes of the image are written, by the stencil. */
  method ConvertBayerToRgb(m: Image, dst: array<int>)
    requires m.Valid() && dst.Length >= 3 * |m.raw|
    modifies dst
    ensures Rows(m, dst[..], m.h)
    ensures forall j :: 3 * |m.raw| <= j < dst.Length ==> dst[j] == old(dst[j])
  {
    var prevLine: nat := 0;
    var curLine: nat := 0;
    var nextLine: nat := curLine + m.w;
    var y := 0;
    while y < m.h
      invariant 0 <= y <= m.h
      invariant curLine == Times(y, m.w)
      invariant y < m.h ==> nextLine == Times(y + 1, m.w)
      invariant y > 0 ==> prevLine == Times(if y == 1 then 2 else y - 1, m.w)
      invariant Rows(m, dst[..], y)
      invariant forall j :: 3 * |m.raw| <= j < dst.Length ==> dst[j] == old(dst[j])
    {
      if y > 0 && y < m.h - 1 {
        prevLine := curLine - m.w;
      } else if y == 0 {
        prevLine := nextLine;
      } else {
        nextLine := prevLine;
      }
      ghost var before := dst[..];
      m.Inside(0, y);
      prevLine, curLine, nextLine := ConvertRow(m, dst, y, prevLine, curLine, nextLine);
      forall r | 0 <= r < y ensures Written(m, dst[..], r, m.w) {
        RowKept(m, before, dst[..], r, y);
      }
      y := y + 1;
    }
  }

  lemma RowKept(m: Image, a: seq<int>, b: seq<int>, r: nat, y: nat)
    requires m.Valid() && r < y < m.h && |a| == |b| && Written(m, a, r, m.w)
    requires forall j :: 0 <= j < 3 * Times(y, m.w) && j < |a| ==> b[j] == a[j]
    ensures Written(m, b, r, m.w)
  {
    TimesMonotone(r + 1, y, m.w);
    forall k | 0 <= k < m.w ensures PixelAt(b, Times(r, m.w) + k) == m.Pixel(k, r) {
      assert PixelAt(a, Times(r, m.w) + k) == m.Pixel(k, r);
    }
  }
}
