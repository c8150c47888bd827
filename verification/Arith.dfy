/** Facts about division, remainders and 64-bit masks that several components need. */
module Arith {

  lemma {:induction false} MulStep(p: int, q: int, n: nat)
    requires p > q
    ensures p * n >= q * n + n
    decreases p - q
  {
    if p > q + 1 {
      MulStep(p - 1, q, n);
    }
    assert p * n == (p - 1) * n + n;
  }

  /** Quotient and remainder are unique. */
  lemma DivMod(a: int, q: int, r: nat, n: nat)
    requires r < n && a == q * n + r
    ensures a / n == q && a % n == r
  {
    var p, s := a / n, a % n;
    Quotient(a, n);
    if p > q {
      MulStep(p, q, n);
    } else if p < q {
      MulStep(q, p, n);
    }
  }

  lemma Quotient(a: int, n: nat)
    requires n > 0
    ensures a == a / n * n + a % n && 0 <= a % n < n
  {
  }

  /** Cutting a summand down first makes no difference to the remainder. */
  lemma ModInside(a: nat, b: nat, n: nat)
    requires n > 0
    ensures (a + b % n) % n == (a + b) % n
  {
    var c := a + b % n;
    Quotient(b, n);
    Quotient(c, n);
    assert (b / n + c / n) * n == b / n * n + c / n * n;
    DivMod(a + b, b / n + c / n, c % n, n);
  }

  /** The remainder, by repeated subtraction. */
  function Wrap(a: nat, n: nat): (r: nat)
    requires n > 0
    ensures r < n
    ensures a < n ==> r == a
  {
    if a < n then a else Wrap(a - n, n)
  }

  lemma {:induction false} WrapIsMod(a: nat, n: nat)
    requires n > 0
    ensures Wrap(a, n) == a % n
  {
    if a < n {
      DivMod(a, 0, a, n);
    } else {
      WrapIsMod(a - n, n);
      Quotient(a - n, n);
      var q := (a - n) / n;
      assert (q + 1) * n == q * n + n;
      DivMod(a, q + 1, (a - n) % n, n);
    }
  }

  /** Within one turn of the ring, equal remainders mean equal counters. */
  lemma {:induction false} SameSlot(a: nat, b: nat, n: nat)
    requires n > 0 && a <= b < a + n
    ensures Wrap(a, n) == Wrap(b, n) <==> a == b
  {
    if a >= n {
      SameSlot(a - n, b - n, n);
    }
  }

  lemma {:induction false} NextSlot(a: nat, n: nat)
    requires n > 0
    ensures Wrap(Wrap(a, n) + 1, n) == Wrap(a + 1, n)
  {
    if a >= n {
      NextSlot(a - n, n);
    }
  }

  // ----- Bits -----

  function Pow2(k: nat): (r: nat)
    ensures r > 0
  {
    if k == 0 then 1 else 2 * Pow2(k - 1)
  }

  /** Bitwise and. */
  function And(x: nat, y: nat): nat {
    if x == 0 || y == 0 then 0 else 2 * And(x / 2, y / 2) + (if x % 2 == 1 && y % 2 == 1 then 1 else 0)
  }

  /** The lowest `k` bits. */
  function Low(x: nat, k: nat): (r: nat)
    ensures r <= x
  {
    if k == 0 then 0 else 2 * Low(x / 2, k - 1) + x % 2
  }

  lemma {:induction false} LowIsWrap(x: nat, k: nat)
    ensures Low(x, k) == Wrap(x, Pow2(k))
  {
    if k > 0 {
      LowIsWrap(x / 2, k - 1);
      WrapDouble(x / 2, x % 2, Pow2(k - 1));
    }
  }

  lemma {:induction false} WrapDouble(y: nat, b: nat, n: nat)
    requires n > 0 && b < 2
    ensures Wrap(2 * y + b, 2 * n) == 2 * Wrap(y, n) + b
    decreases y
  {
    if y >= n {
      WrapDouble(y - n, b, n);
    }
  }

  lemma {:induction false} AndAtMost(x: nat, y: nat)
    ensures And(x, y) <= y
  {
    if x != 0 && y != 0 {
      AndAtMost(x / 2, y / 2);
    }
  }

  lemma {:induction false} PowLe(k: nat, w: nat)
    requires k <= w
    ensures Pow2(k) <= Pow2(w)
    decreases w
  {
    if k < w {
      PowLe(k, w - 1);
    }
  }

  /** Masking a w-bit number with the complement of 2^k - 1 clears its lowest k bits. */
  lemma {:induction false} MaskClears(x: nat, k: nat, w: nat)
    requires k <= w && x < Pow2(w)
    ensures Pow2(k) <= Pow2(w)
    ensures And(x, Pow2(w) - Pow2(k)) == x - Low(x, k)
    decreases w
  {
    PowLe(k, w);
    if k > 0 {
      var y := Pow2(w - 1) - Pow2(k - 1);
      MaskClears(x / 2, k - 1, w - 1);
      AndEven(x, y);
      assert Pow2(w) - Pow2(k) == 2 * y;
      assert Low(x, k) == 2 * Low(x / 2, k - 1) + x % 2;
    } else if w > 0 {
      var y := Pow2(w - 1) - 1;
      MaskClears(x / 2, 0, w - 1);
      AndOdd(x, y);
      assert Pow2(w) - Pow2(0) == 2 * y + 1;
    }
  }

  lemma AndEven(x: nat, y: nat)
    ensures And(x, 2 * y) == 2 * And(x / 2, y)
  {
    if x == 0 {
      assert And(0, y) == 0;
    } else if y > 0 {
      assert 2 * y / 2 == y && 2 * y % 2 == 0;
    }
  }

  lemma AndOdd(x: nat, y: nat)
    ensures And(x, 2 * y + 1) == 2 * And(x / 2, y) + x % 2
  {
    assert (2 * y + 1) / 2 == y && (2 * y + 1) % 2 == 1;
    if x == 0 {
      assert And(0, y) == 0;
    }
  }
}
