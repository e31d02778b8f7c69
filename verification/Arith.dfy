/** Division facts shared by the stream, pixel and audio models. */
module Arith {

  type byte = n: int | 0 <= n < 256

  lemma MulMonotone(a: int, b: int, m: int)
    requires m >= 0
    ensures a <= b ==> a * m <= b * m
  {
  }

  lemma DivModUnique(x: int, q: int, r: int, m: int)
    requires m > 0 && x == q * m + r && 0 <= r < m
    ensures x / m == q && x % m == r
  {
    var d := x / m;
    assert x == d * m + x % m;
    MulMonotone(d + 1, q, m);
    MulMonotone(q + 1, d, m);
  }

  /** The difference of two residues, reduced again, is the residue of the difference. */
  lemma SubMod(a: int, b: int, m: int)
    requires m > 0
    ensures (a % m - b % m) % m == (a - b) % m
  {
    var d := a / m - b / m;
    assert a - b == d * m + (a % m - b % m) by {
      assert a == (a / m) * m + a % m;
      assert b == (b / m) * m + b % m;
      assert d * m == (a / m) * m - (b / m) * m;
    }
    AddMultiple(a % m - b % m, d, m);
  }

  lemma AddMultiple(x: int, d: int, m: int)
    requires m > 0
    ensures (x + d * m) % m == x % m
    ensures (x + d * m) / m == x / m + d
  {
    assert x == (x / m) * m + x % m;
    assert (x / m + d) * m == (x / m) * m + d * m;
    DivModUnique(x + d * m, x / m + d, x % m, m);
  }

  /**
   * The product, by repeated addition. Proofs that never multiply two unknowns stay linear,
   * so offsets are written with `Times` and equated with `*` only where the code multiplies.
   */
  function Times(n: nat, m: nat): nat {
    if n == 0 then 0 else Times(n - 1, m) + m
  }

  lemma {:induction false} TimesIsProduct(n: nat, m: nat)
    ensures Times(n, m) == n * m
  {
    if n > 0 {
      TimesIsProduct(n - 1, m);
    }
  }

  lemma {:induction false} TimesMonotone(a: nat, b: nat, m: nat)
    requires a <= b
    ensures Times(a, m) <= Times(b, m)
  {
    if a < b {
      TimesMonotone(a, b - 1, m);
    }
  }

  // Quotient and remainder by repeated subtraction, for the same reason.

  function Div(n: nat, m: nat): nat
    requires m > 0
  {
    if n < m then 0 else Div(n - m, m) + 1
  }

  function Mod(n: nat, m: nat): (r: nat)
    requires m > 0
    ensures r < m
  {
    if n < m then n else Mod(n - m, m)
  }

  lemma {:induction false} DivModIs(n: nat, m: nat)
    requires m > 0
    ensures Div(n, m) == n / m && Mod(n, m) == n % m
  {
    if n < m {
      DivModUnique(n, 0, n, m);
    } else {
      DivModIs(n - m, m);
      AddMultiple(n - m, 1, m);
    }
  }

  lemma {:induction false} DivModSum(n: nat, m: nat)
    requires m > 0
    ensures n == Times(Div(n, m), m) + Mod(n, m)
  {
    if n >= m {
      DivModSum(n - m, m);
    }
  }

  /** Moving `k <= m` steps forward either stays in the same block of `m` or enters the next. */
  lemma {:induction false} StepDivMod(n: nat, k: nat, m: nat)
    requires m > 0 && k <= m
    ensures Mod(n + k, m) == if Mod(n, m) + k < m then Mod(n, m) + k else Mod(n, m) + k - m
    ensures Div(n + k, m) == if Mod(n, m) + k < m then Div(n, m) else Div(n, m) + 1
  {
    if n >= m {
      StepDivMod(n - m, k, m);
    }
  }

  lemma {:induction false} DivMonotone(a: nat, b: nat, m: nat)
    requires m > 0 && a <= b
    ensures Div(a, m) <= Div(b, m)
  {
    if b >= m && a >= m {
      DivMonotone(a - m, b - m, m);
    }
  }

  /** In one block of `m`, different numbers have different remainders. */
  lemma SameBlock(a: nat, b: nat, m: nat)
    requires m > 0 && Div(a, m) == Div(b, m)
    ensures a - b == Mod(a, m) - Mod(b, m)
  {
    DivModSum(a, m);
    DivModSum(b, m);
  }

  lemma {:induction false} DivModOfSum(q: nat, r: nat, m: nat)
    requires r < m
    ensures Div(Times(q, m) + r, m) == q && Mod(Times(q, m) + r, m) == r
  {
    if q > 0 {
      DivModOfSum(q - 1, r, m);
    }
  }

  /** Counting from the start of a block changes the block number and nothing else. */
  lemma {:induction false} ShiftByBlocks(n: nat, n0: nat, m: nat)
    requires m > 0 && n0 <= n && Mod(n0, m) == 0
    ensures Mod(n - n0, m) == Mod(n, m)
    ensures Div(n - n0, m) == Div(n, m) - Div(n0, m)
  {
    if n0 >= m {
      ShiftByBlocks(n - m, n0 - m, m);
    }
  }

  lemma SameResidue(a: int, b: int, m: int)
    requires m > 0
    ensures a % m == b % m <==> (a - b) % m == 0
  {
    SubMod(a, b, m);
    var d := a % m - b % m;
    if d < 0 {
      DivModUnique(d, -1, d + m, m);
    } else {
      DivModUnique(d, 0, d, m);
    }
  }

  /** Two numbers share a remainder exactly when their distance fills whole blocks. */
  lemma WholeBlocksApart(a: nat, b: nat, m: nat)
    requires m > 0 && a <= b
    ensures Mod(b, m) == Mod(a, m) <==> Mod(b - a, m) == 0
  {
    DivModIs(a, m);
    DivModIs(b, m);
    DivModIs(b - a, m);
    SameResidue(b, a, m);
  }
}
