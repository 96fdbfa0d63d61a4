/** Index arithmetic shared by the grid and the generation-time verifier. */
module GridUtils {
  import opened Dimensions

  /**
   * Java's `/` on `int`: the quotient is truncated toward zero, so the
   * remainder `n - d * q` takes the sign of `n`.
   */
  function JavaDiv(n: int, d: int): (q: int)
    requires d > 0
    ensures n >= 0 ==> 0 <= n - d * q < d
    ensures n < 0 ==> -d < n - d * q <= 0
  {
    if n >= 0 then n / d else -((-n) / d)
  }

  /**
   * A random cell value. `draw` is `(int) (Math.random() * 10)`, a value in
   * [0, TOTAL_BLOCK_NUMBER]; the result always lies in [1, gridSize].
   */
  function GetRandomCellNumber(gridSize: int, draw: int): (r: int)
    requires gridSize >= 1
    requires 0 <= draw <= TOTAL_BLOCK_NUMBER
    ensures 1 <= r <= gridSize
  {
    draw % gridSize + 1
  }

  /**
   * A random 0-indexed coordinate. `draw` is `(int) (Math.random() * 10)`,
   * a value in [0, TOTAL_BLOCK_NUMBER]; the result always lies in [0, 8].
   */
  function GetRandomCellIndex(draw: int): (r: int)
    requires 0 <= draw <= TOTAL_BLOCK_NUMBER
    ensures 0 <= r < TOTAL_BLOCK_NUMBER
    ensures r == if draw == TOTAL_BLOCK_NUMBER then 0 else draw
  {
    draw % TOTAL_BLOCK_NUMBER
  }

  /** Every value of [1, 9] is produced by some draw, so the choice covers the whole range. */
  lemma RandomCellNumberCoversRange(c: int)
    requires 1 <= c <= TOTAL_BLOCK_NUMBER
    ensures GetRandomCellNumber(TOTAL_BLOCK_NUMBER, c - 1) == c
  {
  }

  /** Converts a 1-indexed coordinate into a 0-indexed one. */
  function ToExact(n: int): (r: int)
    ensures r + 1 == n
  {
    n - 1
  }

  /**
   * The first coordinate of the box that holds coordinate `n`, computed the
   * way the source does: with a divisibility test and a truncating division.
   */
  function Calc(blockSize: int, n: int): int
    requires blockSize > 0
  {
    if n % blockSize == 0 then n - (blockSize - 1)
    else JavaDiv(n, blockSize) * blockSize + 1
  }

  /** A positive multiple of a positive number is at least that number. */
  lemma {:induction false} MulAtLeast(d: int, k: int)
    requires d > 0 && k >= 1
    ensures d * k >= d
  {
    if k > 1 {
      MulAtLeast(d, k - 1);
      assert d * k == d * (k - 1) + d;
    }
  }

  /** Division by a positive divisor has exactly one quotient and remainder. */
  lemma {:induction false} DivModUnique(n: int, d: int, q: int, r: int)
    requires d > 0 && 0 <= r < d && n == d * q + r
    ensures n / d == q && n % d == r
  {
    var q', r' := n / d, n % d;
    assert n == d * q' + r';
    if q' > q {
      assert d * q' == d * q + d * (q' - q);
      MulAtLeast(d, q' - q);
      assert false;
    } else if q' < q {
      assert d * q == d * q' + d * (q - q');
      MulAtLeast(d, q - q');
      assert false;
    }
  }

  /** For a 1-indexed coordinate, `Calc` is 1 plus the multiple of the block size just below it. */
  lemma {:induction false} CalcClosedForm(blockSize: int, n: int)
    requires blockSize > 0 && n >= 1
    ensures Calc(blockSize, n) == 1 + blockSize * ((n - 1) / blockSize)
  {
    var q, r := n / blockSize, n % blockSize;
    assert n == blockSize * q + r;
    if r == 0 {
      assert q >= 1;
      DivModUnique(n - 1, blockSize, q - 1, blockSize - 1);
      assert blockSize * (q - 1) == blockSize * q - blockSize;
    } else {
      DivModUnique(n - 1, blockSize, q, r - 1);
      assert JavaDiv(n, blockSize) * blockSize == blockSize * q;
    }
  }

  /**
   * For a 1-indexed coordinate, `Calc` starts a box that holds it: the box
   * start is at least 1, at most `n`, at most `blockSize - 1` below `n`, and
   * one more than a multiple of the block size.
   */
  lemma {:induction false} CalcBounds(blockSize: int, n: int)
    requires blockSize > 0 && n >= 1
    ensures 1 <= Calc(blockSize, n) <= n <= Calc(blockSize, n) + blockSize - 1
    ensures (Calc(blockSize, n) - 1) % blockSize == 0
  {
    CalcClosedForm(blockSize, n);
    var q := (n - 1) / blockSize;
    assert n - 1 == blockSize * q + (n - 1) % blockSize;
    assert q >= 0;
    assert blockSize * q >= 0;
    DivModUnique(blockSize * q, blockSize, q, 0);
  }

  /** Two 1-indexed coordinates share a box start exactly when they fall in the same block of `blockSize`. */
  lemma {:induction false} CalcSameBox(blockSize: int, n: int, k: int)
    requires blockSize > 0 && n >= 1 && k >= 1
    ensures Calc(blockSize, n) == Calc(blockSize, k) <==> (n - 1) / blockSize == (k - 1) / blockSize
  {
    CalcClosedForm(blockSize, n);
    CalcClosedForm(blockSize, k);
    MulCancel(blockSize, (n - 1) / blockSize, (k - 1) / blockSize);
  }

  /** Multiplying by a positive number is injective. */
  lemma MulCancel(d: int, a: int, b: int)
    requires d > 0
    ensures d * a == d * b <==> a == b
  {
    if a != b {
      assert d * a - d * b == d * (a - b);
    }
  }

  /** Every coordinate of the box that starts at `Calc(blockSize, n)` has that same box start. */
  lemma {:induction false} CalcOfBoxMember(blockSize: int, n: int, k: int)
    requires blockSize > 0 && n >= 1
    requires Calc(blockSize, n) <= k <= Calc(blockSize, n) + blockSize - 1
    ensures Calc(blockSize, k) == Calc(blockSize, n)
  {
    CalcClosedForm(blockSize, n);
    var q := (n - 1) / blockSize;
    assert q >= 0;
    assert k >= 1;
    DivModUnique(k - 1, blockSize, q, k - Calc(blockSize, n));
    CalcClosedForm(blockSize, k);
  }

  /** With the program's block size 3, the box starts are 1, 4 and 7. */
  lemma CalcWithBlockSizeThree(n: int)
    requires InRange(n)
    ensures 1 <= n <= 3 ==> Calc(BLOCK_NUMBER, n) == 1
    ensures 4 <= n <= 6 ==> Calc(BLOCK_NUMBER, n) == 4
    ensures 7 <= n <= 9 ==> Calc(BLOCK_NUMBER, n) == 7
  {
  }
}
