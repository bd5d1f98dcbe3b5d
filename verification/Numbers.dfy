/** Powers, quotients and remainders of natural numbers. */
module Numbers {

  function Pow(b: nat, e: nat): (r: nat)
    ensures b > 0 ==> r > 0
  {
    if e == 0 then 1 else b * Pow(b, e - 1)
  }

  lemma PowSucc(b: nat, e: nat)
    ensures Pow(b, e + 1) == b * Pow(b, e)
  {
  }

  lemma PowFirst(b: nat)
    ensures Pow(b, 1) == b
  {
    assert Pow(b, 1) == b * Pow(b, 0);
  }

  lemma {:induction false} PowAdd(b: nat, x: nat, y: nat)
    ensures Pow(b, x + y) == Pow(b, x) * Pow(b, y)
    decreases x
  {
    if x > 0 {
      PowAdd(b, x - 1, y);
      Associate(b, Pow(b, x - 1), Pow(b, y));
    }
  }

  lemma Associate(a: int, b: int, c: int)
    ensures a * (b * c) == (a * b) * c
  {
  }

  lemma {:induction false} PowMul(b: nat, x: nat, y: nat)
    ensures Pow(b, x * y) == Pow(Pow(b, x), y)
    decreases y
  {
    if y == 0 {
      assert x * y == 0;
    } else {
      PowMul(b, x, y - 1);
      assert x * y == x + x * (y - 1);
      PowAdd(b, x, x * (y - 1));
    }
  }

  lemma {:induction false} PowMono(a: nat, b: nat, e: nat)
    requires a <= b
    ensures Pow(a, e) <= Pow(b, e)
    decreases e
  {
    if e > 0 {
      PowMono(a, b, e - 1);
      MulMono(a, b, Pow(a, e - 1), Pow(b, e - 1));
    }
  }

  lemma MulMono(a: nat, b: nat, x: nat, y: nat)
    requires a <= b && x <= y
    ensures a * x <= b * y
  {
    assert a * x <= b * x;
    assert b * x <= b * y;
  }

  lemma {:induction false} PowExpMono(b: nat, x: nat, y: nat)
    requires b > 0 && x <= y
    ensures Pow(b, x) <= Pow(b, y)
  {
    PowAdd(b, x, y - x);
    assert Pow(b, x) * 1 <= Pow(b, x) * Pow(b, y - x);
  }

  lemma PowStep(b: nat, e: nat)
    requires b > 1
    ensures Pow(b, e) < Pow(b, e + 1)
  {
    assert Pow(b, e + 1) == b * Pow(b, e);
    assert b * Pow(b, e) >= 2 * Pow(b, e);
  }

  /** Comparing n-th powers compares the numbers. */
  lemma RootMono(a: nat, b: nat, e: nat)
    requires Pow(a, e) < Pow(b, e)
    ensures a < b
  {
    if a >= b { PowMono(b, a, e); }
  }

  /** Multiples of m are at least m apart. */
  lemma Below(p: int, q: int, m: nat)
    ensures p < q ==> p * m + m <= q * m
  {
    if p < q {
      var k := q - p - 1;
      Expand(p, k, m);
      NonNegativeProduct(k, m);
    }
  }

  lemma Expand(p: int, k: int, m: int)
    ensures (p + 1 + k) * m == p * m + m + k * m
  {
  }

  lemma NonNegativeProduct(a: nat, b: nat)
    ensures a * b >= 0
  {
  }

  lemma Gap(p: int, q: int, m: nat)
    ensures p < q ==> p * m + m <= q * m
    ensures q < p ==> q * m + m <= p * m
  {
    Below(p, q, m);
    Below(q, p, m);
  }

  lemma QuotientOf(q: nat, r: nat, base: nat)
    requires r < base
    ensures (q * base + r) / base == q && (q * base + r) % base == r
  {
    var n := q * base + r;
    var p := n / base;
    assert n == p * base + n % base;
    Gap(p, q, base);
  }

  lemma ZeroProduct(a: nat, b: nat)
    requires b > 0
    ensures a * b == 0 ==> a == 0
  {
  }

  lemma DivSmaller(n: nat, base: nat)
    requires base > 1 && n > 0
    ensures 0 <= n / base < n && 0 <= n % base < base && n == (n / base) * base + n % base
    ensures n / base == 0 ==> n % base == n
  {
    var q := n / base;
    Doubled(q, base);
  }

  lemma Doubled(q: int, base: nat)
    requires base > 1
    ensures q >= 0 ==> q * base >= 2 * q
    ensures q < 0 ==> q * base + base <= 0
  {
    if q >= 0 {
      SplitTwo(q, base);
      NonNegativeProduct(q, base - 2);
    }
    Below(q, 0, base);
  }

  lemma SplitTwo(q: int, base: int)
    ensures q * base == 2 * q + q * (base - 2)
  {
  }
}
