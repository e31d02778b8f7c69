/**
 * The forward-difference tables of depth registration (libfreenect/src/registration.c,
 * `freenect_create_dxdy_tables`). The code steps along rows and columns with shifted integer
 * differences; the exact cubic it approximates is computed here without rounding, scaled by 2^14.
 */
module DiffTables {
  import opened Arith

  /** The 32-bit value of a shifted 32-bit register. */
  function Wrap32(x: int): int {
    (x + 0x8000_0000) % 0x1_0000_0000 - 0x8000_0000
  }

  /** The arithmetic shifts `x >> 6` and `x >> 8`, which round down. */
  function Sar6(x: int): int { x / 64 }

  function Sar8(x: int): int { x / 256 }

  /** The coefficients of one table, x or y, as the record from the device gives them. */
  datatype Coeffs = Coeffs(a: int, b: int, c: int, d: int,
                           start: int, dxStart: int, dyStart: int,
                           dxdxStart: int, dydxStart: int, dydyStart: int)

  /**
   * The six running differences: the value, its first and second difference along a row, the
   * change of the first from row to row, and the first and second difference down the rows.
   */
  datatype Row = Row(v: int, dx: int, dxdx: int, dydx: int, dy: int, dydy: int)

  /** The clamped start values; the two shifts of each are not merged. */
  function Start(k: Coeffs): Row {
    Row(Wrap32(k.start * 0x2000) / 16, Wrap32(k.dxStart * 0x800) / 8, Wrap32(Wrap32(k.dxdxStart * 32) * 8),
        Wrap32(Wrap32(k.dydxStart * 32) * 8), Wrap32(k.dyStart * 0x800) / 8, Wrap32(Wrap32(k.dydyStart * 32) * 8))
  }

  /** From one row to the next. */
  function NextRow(k: Coeffs, r: Row): Row {
    Row(r.v + Sar6(r.dy), r.dx + Sar8(r.dydx), r.dxdx + k.c, r.dydx + k.d, r.dy + Sar8(r.dydy), r.dydy + k.b)
  }

  function RowAt(k: Coeffs, n: nat): Row {
    if n == 0 then Start(k) else NextRow(k, RowAt(k, n - 1))
  }

  /** The three differences that move along a row. */
  datatype Col = Col(v: int, dx: int, dxdx: int)

  function NextCol(a: int, c: Col): Col {
    Col(c.v + Sar6(c.dx), c.dx + Sar8(c.dxdx), c.dxdx + a)
  }

  function ColAt(a: int, c: Col, n: nat): Col {
    if n == 0 then c else NextCol(a, ColAt(a, c, n - 1))
  }

  /** The table entry, in units of 2^-17 pixel: the first step is taken before the first row. */
  function Entry(k: Coeffs, row: nat, col: nat): int {
    var r := RowAt(k, row + 1);
    ColAt(k.a, Col(r.v, r.dx, r.dxdx), col).v
  }

  // ---------------------------------------------------------------- the code

  /** A fixed-point value as a fraction of a pixel: `v * (1.0 / (1 << 17))`, which is exact. */
  function Pixels(v: int): real {
    v as real / 131072.0
  }

  /** The first `n` entries of a row are in place. */
  ghost predicate Filled(t: seq<real>, width: nat, k: Coeffs, row: nat, n: nat) {
    Times(row, width) + n <= |t| && forall c :: 0 <= c < n ==> t[Times(row, width) + c] == Pixels(Entry(k, row, c))
  }

  /** `freenect_create_dxdy_tables`. */
  method CreateDxDyTables(xTable: array<real>, yTable: array<real>, width: nat, height: nat, kx: Coeffs, ky: Coeffs)
    requires xTable.Length == yTable.Length == Times(height, width) && xTable != yTable
    modifies xTable, yTable
    ensures forall row :: 0 <= row < height ==>
              Filled(xTable[..], width, kx, row, width) && Filled(yTable[..], width, ky, row, width)
  {
    hide Start, NextRow;
    var rx, ry := Start(kx), Start(ky);
    var offs := 0;
    for row := 0 to height
      invariant offs == Times(row, width) && rx == RowAt(kx, row) && ry == RowAt(ky, row)
      invariant forall r :: 0 <= r < row ==>
                  Filled(xTable[..], width, kx, r, width) && Filled(yTable[..], width, ky, r, width)
    {
      TimesMonotone(row + 1, height, width);
      rx := NextRow(kx, rx);
      ry := NextRow(ky, ry);
      ghost var xs, ys := xTable[..], yTable[..];
      offs := FillRow(xTable, yTable, offs, width, row, kx, ky, rx, ry);
      forall r | 0 <= r < row
        ensures Filled(xTable[..], width, kx, r, width) && Filled(yTable[..], width, ky, r, width)
      {
        TimesMonotone(r + 1, row, width);
        assert Filled(xs, width, kx, r, width) && Filled(ys, width, ky, r, width);
      }
    }
  }

  /** The loop over the columns. */
  method FillRow(xTable: array<real>, yTable: array<real>, offs: nat, width: nat, row: nat,
                 kx: Coeffs, ky: Coeffs, rx: Row, ry: Row) returns (offs': nat)
    requires xTable != yTable && offs == Times(row, width)
    requires offs + width <= xTable.Length && offs + width <= yTable.Length
    requires rx == RowAt(kx, row + 1) && ry == RowAt(ky, row + 1)
    modifies xTable, yTable
    ensures offs' == offs + width
    ensures Filled(xTable[..], width, kx, row, width) && Filled(yTable[..], width, ky, row, width)
    ensures forall i :: 0 <= i < offs ==> xTable[i] == old(xTable[i]) && yTable[i] == old(yTable[i])
  {
    var cx, cy := Col(rx.v, rx.dx, rx.dxdx), Col(ry.v, ry.dx, ry.dxdx);
    ghost var cx0, cy0 := cx, cy;
    offs' := offs;
    for col := 0 to width
      invariant offs' == offs + col && cx == ColAt(kx.a, cx0, col) && cy == ColAt(ky.a, cy0, col)
      invariant Filled(xTable[..], width, kx, row, col) && Filled(yTable[..], width, ky, row, col)
      invariant forall i :: 0 <= i < offs ==> xTable[i] == old(xTable[i]) && yTable[i] == old(yTable[i])
    {
      xTable[offs'] := Pixels(cx.v);
      yTable[offs'] := Pixels(cy.v);
      cx := NextCol(kx.a, cx);
      cy := NextCol(ky.a, cy);
      offs' := offs' + 1;
    }
  }

  // ---------------------------------------------------------------- the exact cubic

  /** `n (n - 1) / 2`. */
  function Choose2(n: nat): nat {
    if n == 0 then 0 else Choose2(n - 1) + (n - 1)
  }

  /** `n (n - 1) (n - 2) / 6`. */
  function Choose3(n: nat): nat {
    if n == 0 then 0 else Choose3(n - 1) + Choose2(n - 1)
  }

  lemma {:induction false} Binomials(n: nat)
    ensures 2 * Choose2(n) == n * (n - 1)
    ensures 6 * Choose3(n) == n * (n - 1) * (n - 2)
  {
    if n > 0 {
      Binomials(n - 1);
      Pairs(n);
      Triples(n, (n - 1) * (n - 2));
    }
  }

  lemma Pairs(n: int)
    ensures (n - 1) * (n - 2) + 2 * (n - 1) == n * (n - 1)
  {
  }

  lemma Triples(n: int, x: int)
    requires x == (n - 1) * (n - 2)
    ensures x * (n - 3) + 3 * x == n * (n - 1) * (n - 2)
  {
    assert n * (n - 1) * (n - 2) == n * x;
  }

  /**
   * A cubic from its forward differences, scaled by 2^14: the value counts 2^14, the first
   * difference 2^8, and the second difference and its increment 1.
   */
  function Cubic(v: int, d: int, dd: int, inc: int, n: nat): int {
    0x4000 * v + 0x100 * (n * d) + Choose2(n) * dd + Choose3(n) * inc
  }

  /** The quadratic that the first difference follows, scaled by 2^8. */
  function Quadratic(d: int, dd: int, inc: int, n: nat): int {
    0x100 * d + n * dd + Choose2(n) * inc
  }

  lemma NoSteps(v: int, d: int, dd: int, inc: int)
    ensures Cubic(v, d, dd, inc, 0) == 0x4000 * v && Quadratic(d, dd, inc, 0) == 0x100 * d
  {
  }

  lemma AddFactor(a: int, b: int, x: int)
    ensures (a + b) * x == a * x + b * x
  {
  }

  lemma CubicNext(v: int, d: int, dd: int, inc: int, n: nat)
    ensures Cubic(v, d, dd, inc, n + 1) == Cubic(v, d, dd, inc, n) + Quadratic(d, dd, inc, n)
  {
    AddFactor(n, 1, d);
    AddFactor(Choose2(n), n, dd);
    AddFactor(Choose3(n), Choose2(n), inc);
  }

  lemma QuadraticNext(d: int, dd: int, inc: int, n: nat)
    ensures Quadratic(d, dd, inc, n + 1) == Quadratic(d, dd, inc, n) + dd + n * inc
  {
    AddFactor(n, 1, dd);
    AddFactor(Choose2(n), n, inc);
  }

  /** How far rounding down can lag behind after `n` steps, scaled by 2^14. */
  function Lag(n: nat): nat {
    16128 * n + 255 * Choose2(n)
  }

  /** `Lag(n)` is at most `n + n (n - 1) / 128` units of 2^-17 pixel. */
  lemma LagBound(n: nat)
    ensures 128 * Lag(n) <= 0x4000 * (128 * n + n * (n - 1))
  {
    Binomials(n);
  }

  /**
   * Along a row the code never exceeds the exact cubic of the row's own start, and lags behind it
   * by at most `Lag(n)`.
   */
  lemma {:induction false} RowError(a: int, c: Col, n: nat)
    ensures var r := ColAt(a, c, n);
      && r.dxdx == c.dxdx + n * a
      && Quadratic(c.dx, c.dxdx, a, n) - 255 * n <= 0x100 * r.dx <= Quadratic(c.dx, c.dxdx, a, n)
      && Cubic(c.v, c.dx, c.dxdx, a, n) - Lag(n) <= 0x4000 * r.v <= Cubic(c.v, c.dx, c.dxdx, a, n)
  {
    hide Quadratic, Cubic;
    if n == 0 {
      NoSteps(c.v, c.dx, c.dxdx, a);
    } else {
      RowError(a, c, n - 1);
      AddFactor(n - 1, 1, a);
      QuadraticNext(c.dx, c.dxdx, a, n - 1);
      CubicNext(c.v, c.dx, c.dxdx, a, n - 1);
    }
  }

  /** The row starts step down the image as the values step along a row. */
  lemma {:induction false} DownIsAlong(k: Coeffs, n: nat)
    ensures var s, r := Start(k), RowAt(k, n);
      Col(r.v, r.dy, r.dydy) == ColAt(k.b, Col(s.v, s.dy, s.dydy), n)
  {
    if n > 0 {
      DownIsAlong(k, n - 1);
    }
  }

  /** The differences that a row starts with. */
  lemma {:induction false} RowSlopeError(k: Coeffs, n: nat)
    ensures var s, r := Start(k), RowAt(k, n);
      && r.dydx == s.dydx + n * k.d
      && r.dxdx == s.dxdx + n * k.c
      && Quadratic(s.dx, s.dydx, k.d, n) - 255 * n <= 0x100 * r.dx <= Quadratic(s.dx, s.dydx, k.d, n)
  {
    if n > 0 {
      RowSlopeError(k, n - 1);
      var s := Start(k);
      assert n * k.d == (n - 1) * k.d + k.d;
      assert n * k.c == (n - 1) * k.c + k.c;
      QuadraticNext(s.dx, s.dydx, k.d, n - 1);
    }
  }

  /** The exact bivariate cubic at row `r` (counted from one) and column `c`, scaled by 2^14. */
  function Exact(k: Coeffs, r: nat, c: nat): int {
    var s := Start(k);
    Cubic(s.v, s.dy, s.dydy, k.b, r)
      + c * Quadratic(s.dx, s.dydx, k.d, r)
      + Choose2(c) * (s.dxdx + r * k.c)
      + Choose3(c) * k.a
  }

  /** Every entry, for every size of table: never above the exact cubic, and below it by a known bound. */
  lemma EntryError(k: Coeffs, row: nat, col: nat)
    ensures var r := row + 1;
      Exact(k, r, col) - Lag(r) - 255 * (col * r) - Lag(col) <= 0x4000 * Entry(k, row, col) <= Exact(k, r, col)
  {
    var n, s := row + 1, Start(k);
    var r := RowAt(k, n);
    DownIsAlong(k, n);
    RowError(k.b, Col(s.v, s.dy, s.dydy), n);
    RowSlopeError(k, n);
    RowError(k.a, Col(r.v, r.dx, r.dxdx), col);
    ScaledError(col, r.dx, Quadratic(s.dx, s.dydx, k.d, n), n);
    SumOfErrors(k, r, n, col);
  }

  lemma ScaledError(col: nat, d: int, q: int, n: nat)
    requires q - 255 * n <= 0x100 * d <= q
    ensures col * q - 255 * (col * n) <= 0x100 * (col * d) <= col * q
  {
    MulMonotone(0x100 * d, q, col);
    MulMonotone(q - 255 * n, 0x100 * d, col);
    assert (0x100 * d) * col == 0x100 * (col * d);
    assert (q - 255 * n) * col == col * q - 255 * (col * n);
  }

  /** What a row's start and its first difference lack is all that its exact cubic lacks. */
  lemma SumOfErrors(k: Coeffs, r: Row, n: nat, col: nat)
    requires var s := Start(k);
      && r.dxdx == s.dxdx + n * k.c
      && Cubic(s.v, s.dy, s.dydy, k.b, n) - Lag(n) <= 0x4000 * r.v <= Cubic(s.v, s.dy, s.dydy, k.b, n)
      && var q := Quadratic(s.dx, s.dydx, k.d, n);
         col * q - 255 * (col * n) <= 0x100 * (col * r.dx) <= col * q
    ensures Exact(k, n, col) - Lag(n) - 255 * (col * n) <= Cubic(r.v, r.dx, r.dxdx, k.a, col) <= Exact(k, n, col)
  {
  }

  /**
   * In the 640 by 480 table every entry is at most the exact cubic and less than a tenth of a
   * pixel below it, whatever the coefficients.
   */
  lemma WithinTenthOfPixel(k: Coeffs, row: nat, col: nat)
    requires row < 480 && col < 640
    ensures var exact := Exact(k, row + 1, col) as real / (131072.0 * 16384.0);
      exact - 0.1 < Pixels(Entry(k, row, col)) <= exact
  {
    EntryError(k, row, col);
    TotalLag(row + 1, col);
    ToPixels(Exact(k, row + 1, col), Entry(k, row, col));
  }

  lemma LagAtMost(n: nat, bound: nat)
    requires 0 < n <= bound
    ensures 2 * Lag(n) <= 32256 * bound + 255 * (bound * (bound - 1))
  {
    Binomials(n);
    MulMonotone(n, bound, n - 1);
    MulMonotone(n - 1, bound - 1, bound);
    assert bound * (n - 1) == (n - 1) * bound && (bound - 1) * bound == bound * (bound - 1);
  }

  lemma TotalLag(r: nat, c: nat)
    requires r <= 480 && c <= 639
    ensures Lag(r) + 255 * (c * r) + Lag(c) < 214748364
  {
    if r > 0 {
      LagAtMost(r, 480);
    }
    if c > 0 {
      LagAtMost(c, 639);
    }
    MulMonotone(r, 480, c);
    assert c * r <= 480 * c;
  }

  lemma ToPixels(exact: int, v: int)
    requires exact - 214748364 < 0x4000 * v <= exact
    ensures var e := exact as real / (131072.0 * 16384.0);
      e - 0.1 < Pixels(v) <= e
  {
    assert Pixels(v) == (0x4000 * v) as real / (131072.0 * 16384.0);
  }
}
