/** Skip heights, and how many steps the walk to an ancestor takes with them. */
module SkipHeights {
  import opened Numbers

  /** Clears the lowest one bit of a number. */
  function InvertLowestOne(n: nat): (r: nat)
    ensures n > 0 ==> r < n
  {
    if n == 0 then 0 else if n % 2 == 1 then n - 1 else 2 * InvertLowestOne(n / 2)
  }

  /** In binary: n ends in a one followed by k zeros, and the result has a zero for that one. */
  lemma {:induction false} InvertLowestOneMeaning(n: nat) returns (m: nat, k: nat)
    requires n > 0
    ensures n == (2 * m + 1) * Pow(2, k) && InvertLowestOne(n) == (2 * m) * Pow(2, k)
  {
    if n % 2 == 1 {
      m, k := n / 2, 0;
    } else {
      m, k := InvertLowestOneMeaning(n / 2);
      k := k + 1;
      assert n == 2 * ((2 * m + 1) * Pow(2, k - 1)) == (2 * m + 1) * (2 * Pow(2, k - 1));
      assert 2 * ((2 * m) * Pow(2, k - 1)) == (2 * m) * (2 * Pow(2, k - 1));
    }
  }

  /** Where a block's skip pointer leads: always strictly below the block. */
  function GetSkipHeight(height: int): (r: nat)
    ensures height >= 1 ==> r < height
  {
    if height < 2 then 0
    else if height % 2 == 1 then InvertLowestOne(InvertLowestOne(height - 1)) + 1
    else InvertLowestOne(height)
  }

  // ----- the walk -----

  /** The next height on the way from n down to t: by the skip pointer, unless it leads too far or the
      one of the block before is better. */
  function Next(n: nat, t: nat): (r: nat)
    requires t < n
    ensures t <= r < n
  {
    var skip, skipPrev := GetSkipHeight(n), GetSkipHeight(n - 1);
    if skip == t || (skip > t && !(skipPrev < skip - 2 && skipPrev >= t)) then skip else n - 1
  }

  /** The number of steps from n down to t. */
  function Steps(n: nat, t: nat): nat
    requires t <= n
    decreases n
  {
    if n == t then 0 else 1 + Steps(Next(n, t), t)
  }

  lemma OneStep(t: nat)
    ensures Steps(t + 1, t) == 1
  {
    assert Next(t + 1, t) == t;
    assert Steps(t, t) == 0;
  }

  // ----- zeros at the end of a number -----

  /** The last a bits are zeros. */
  predicate Mult(x: nat, a: nat)
  {
    a == 0 || (x % 2 == 0 && Mult(x / 2, a - 1))
  }

  /** The number of zeros at the end. */
  function Low(n: nat): (a: nat)
    requires n > 0
    ensures Mult(n, a)
  {
    if n % 2 == 1 then 0 else 1 + Low(n / 2)
  }

  lemma {:induction false} MultLess(x: nat, a: nat, b: nat)
    requires Mult(x, a) && b <= a
    ensures Mult(x, b)
    decreases b
  {
    if b > 0 { MultLess(x / 2, a - 1, b - 1); }
  }

  lemma {:induction false} MultMinus(x: nat, b: nat)
    requires Mult(x, b) && x >= Pow(2, b)
    ensures Mult(x - Pow(2, b), b)
    decreases b
  {
    if b > 0 {
      MultMinus(x / 2, b - 1);
      assert (x - Pow(2, b)) / 2 == x / 2 - Pow(2, b - 1);
    }
  }

  lemma {:induction false} MultAtLeast(x: nat, a: nat)
    requires Mult(x, a) && x > 0
    ensures x >= Pow(2, a)
    decreases a
  {
    if a > 0 { MultAtLeast(x / 2, a - 1); }
  }

  /** Clearing the lowest one takes away the power of two that it stands for. */
  lemma {:induction false} LowCleared(n: nat)
    requires n > 0
    ensures InvertLowestOne(n) == n - Pow(2, Low(n)) && Mult(InvertLowestOne(n), Low(n) + 1)
    decreases n
  {
    if n % 2 == 0 {
      LowCleared(n / 2);
      assert Pow(2, Low(n)) == 2 * Pow(2, Low(n / 2));
      assert InvertLowestOne(n) / 2 == InvertLowestOne(n / 2);
    } else {
      assert Mult((n - 1) / 2, 0);
    }
  }

  lemma {:induction false} LowAtLeast(n: nat, a: nat)
    requires n > 0 && Mult(n, a)
    ensures Low(n) >= a
    decreases a
  {
    if a > 0 { LowAtLeast(n / 2, a - 1); }
  }

  lemma MultHalf(x: nat, a: nat)
    requires Mult(x, a) && a > 0
    ensures x % 2 == 0 && Mult(x / 2, a - 1)
  {
  }

  lemma TwiceCleared(n: nat)
    requires n > 0
    ensures InvertLowestOne(2 * n) == 2 * InvertLowestOne(n)
  {
  }

  /** Below a multiple of a larger power of two. */
  lemma {:induction false} ClearedBelow(x: nat, a: nat, b: nat)
    requires Mult(x, a) && b < a && x > 0
    ensures x >= Pow(2, b + 1) && InvertLowestOne(x - Pow(2, b)) == x - Pow(2, b + 1)
    decreases b
  {
    hide Pow, Mult;
    PowSucc(2, b);
    MultHalf(x, a);
    if b == 0 {
      PowValues();
    } else {
      ClearedBelow(x / 2, a - 1, b - 1);
      PowSucc(2, b - 1);
      TwiceCleared(x / 2 - Pow(2, b - 1));
    }
  }

  /** Clearing the lowest one of a multiple goes down at least by the power of two. */
  lemma ClearedAtMost(x: nat, a: nat)
    requires Mult(x, a) && x > 0
    ensures InvertLowestOne(x) + Pow(2, a) <= x
  {
    LowCleared(x);
    LowAtLeast(x, a);
    PowExpMono(2, a, Low(x));
  }

  // ----- from a multiple of a power of two to the next below -----

  /** The most steps from a multiple of 2^a to a height no lower than the multiple below. */
  function Most(a: nat): (r: nat)
    ensures r > 0
  {
    if a < 3 then a + 1 else if a == 3 then 5 else Most(a - 1) + (a + 3) / 2
  }

  lemma {:induction false} MostMono(a: nat, b: nat)
    requires a <= b
    ensures Most(a) <= Most(b)
    decreases b
  {
    if a < b { MostMono(a, b - 1); }
  }

  /** It grows like the square. */
  lemma {:induction false} MostSquare(a: nat)
    ensures 4 * Most(a) <= a * a + 7 * a + 4
    decreases a
  {
    if a > 3 {
      MostSquare(a - 1);
      assert (a - 1) * (a - 1) == a * a - 2 * a + 1;
    }
  }

  /** The skip pointer of an even height below which all is zeros is not worse than its neighbour's. */
  lemma EvenSkips(n: nat, t: nat)
    requires n > 0 && Mult(n, 3) && t <= InvertLowestOne(n)
    ensures Next(n, t) == InvertLowestOne(n)
  {
    hide InvertLowestOne, Pow, Mult;
    ThreeZeros(n);
    ClearedAtMost(n, 3);
    PowValues();
  }

  lemma ThreeZeros(n: nat)
    requires n > 0 && Mult(n, 3)
    ensures n >= 8 && n % 2 == 0 && GetSkipHeight(n - 1) == n - 7
  {
    hide InvertLowestOne;
    PowValues();
    MultAtLeast(n, 3);
    ClearedBelow(n, 3, 1);
    ClearedBelow(n, 3, 2);
  }

  lemma PowValues()
    ensures Pow(2, 0) == 1 && Pow(2, 1) == 2 && Pow(2, 2) == 4 && Pow(2, 3) == 8
  {
    assert Pow(2, 1) == 2 * Pow(2, 0);
    assert Pow(2, 2) == 2 * Pow(2, 1);
    assert Pow(2, 3) == 2 * Pow(2, 2);
  }

  /** From a multiple of 2^a. */
  lemma {:induction false} Block(x: nat, a: nat, t: nat)
    requires Mult(x, a) && x > 0 && x - Pow(2, a) <= t < x
    ensures Steps(x, t) <= Most(a)
    decreases x, 0
  {
    hide InvertLowestOne, Pow, Mult;
    PowValues();
    if t == x - 1 {
      OneStep(t);
    } else {
      MultHalf(x, a);
      ClearedAtMost(x, a);
      assert Next(x, t) == t || Next(x, t) == x - 1;
      assert Steps(t, t) == 0;
      if Next(x, t) != t {
        Ladder(x, a, 1, t);
      }
    }
  }


  /** On odd heights below a multiple of 2^a, each skip taking two more ones. */
  lemma {:induction false} Ladder(x: nat, a: nat, b: nat, t: nat)
    requires Mult(x, a) && x >= Pow(2, b) && b % 2 == 1 && b <= a && x - Pow(2, a) <= t <= x - Pow(2, b) + 1
    ensures Steps(x - Pow(2, b) + 1, t) + (b + 1) / 2 <= Most(a)
    decreases x - Pow(2, b) + 1, 1
  {
    hide InvertLowestOne, GetSkipHeight, Pow, Mult, Most;
    var y := x - Pow(2, b) + 1;
    MostRoom(a);
    if t == y {
      assert Steps(y, t) == 0;
    } else if t == y - 1 {
      OneStep(t);
    } else if b + 1 < a {
      OddSkip(x, a, b);
      if t <= x - Pow(2, b + 2) + 1 {
        assert Next(y, t) == x - Pow(2, b + 2) + 1;
        Ladder(x, a, b + 2, t);
      } else {
        assert Next(y, t) == y - 1;
        Leave(x, a, b, t);
      }
    } else {
      LadderEnd(x, a, t);
    }
  }

  lemma MostRoom(a: nat)
    ensures Most(a) >= (a + 3) / 2 && (a % 2 == 0 ==> Most(a) >= (a + 4) / 2 || a == 0)
  {
  }

  /** The skip pointers of two neighbouring heights. */
  lemma OddSkip(x: nat, a: nat, b: nat)
    requires Mult(x, a) && x > 0 && 1 <= b < a
    ensures var m := x - Pow(2, b);
      && m >= 2 && m % 2 == 0 && x >= Pow(2, b + 1) && Pow(2, b + 1) == 2 * Pow(2, b)
      && GetSkipHeight(m) == x - Pow(2, b + 1) && GetSkipHeight(m + 1) == InvertLowestOne(x - Pow(2, b + 1)) + 1
      && Mult(m, b) && Mult(x - Pow(2, b + 1), b + 1)
    ensures b + 1 < a ==> x >= Pow(2, b + 2) && GetSkipHeight(x - Pow(2, b) + 1) == x - Pow(2, b + 2) + 1
    ensures Pow(2, b + 2) == 4 * Pow(2, b)
  {
    hide InvertLowestOne, Mult, Pow, GetSkipHeight;
    PowSucc(2, b - 1);
    PowSucc(2, b);
    PowSucc(2, b + 1);
    ClearedBelow(x, a, b);
    if b + 1 < a { ClearedBelow(x, a, b + 1); }
    MultLess(x, a, b);
    MultLess(x, a, b + 1);
    MultMinus(x, b);
    MultMinus(x, b + 1);
    MultHalf(x - Pow(2, b), b);
    SkipsFrom(x - Pow(2, b));
  }

  lemma SkipsFrom(m: nat)
    requires m >= 2 && m % 2 == 0
    ensures GetSkipHeight(m) == InvertLowestOne(m)
    ensures GetSkipHeight(m + 1) == InvertLowestOne(InvertLowestOne(m)) + 1
  {
    hide InvertLowestOne;
  }

  /** Leaving the odd heights: two blocks are left in which the end may be. */
  lemma {:induction false} Leave(x: nat, a: nat, b: nat, t: nat)
    requires Mult(x, a) && x > 0 && b % 2 == 1 && b + 1 < a
    requires x >= Pow(2, b) && x - Pow(2, b + 2) + 1 < t < x - Pow(2, b)
    ensures 1 + Steps(x - Pow(2, b), t) + (b + 1) / 2 <= Most(a)
    decreases x - Pow(2, b), 1
  {
    hide InvertLowestOne, GetSkipHeight, Pow, Mult, Steps;
    var m := x - Pow(2, b);
    OddSkip(x, a, b);
    MostNext(b, a);
    if b == 1 {
      MultLess(x, a, 3);
      PowValues();
      LowEnd(x, t);
    } else if t < x - Pow(2, b + 1) {
      MultLess(m, b, 3);
      EvenSkip(x, a, b, t);
      Block(x - Pow(2, b + 1), b + 1, t);
    } else {
      Block(m, b, t);
    }
  }

  /** One skip on even heights. */
  lemma EvenSkip(x: nat, a: nat, b: nat, t: nat)
    requires Mult(x, a) && 1 <= b < a && x > 0 && x >= Pow(2, b + 1) && t < x - Pow(2, b + 1)
    requires x >= Pow(2, b) && Mult(x - Pow(2, b), 3)
    ensures t < x - Pow(2, b) && Steps(x - Pow(2, b), t) == 1 + Steps(x - Pow(2, b + 1), t)
  {
    hide InvertLowestOne, Mult, GetSkipHeight, Pow;
    OddSkip(x, a, b);
    ClearedBelow(x, a, b);
    EvenSkips(x - Pow(2, b), t);
  }

  lemma MostNext(b: nat, a: nat)
    requires b % 2 == 1 && b + 1 < a
    ensures b == 1 ==> Most(a) >= 5
    ensures b > 1 ==> Most(b + 1) + (b + 5) / 2 <= Most(a) && Most(b) + (b + 3) / 2 <= Most(a)
  {
    MostMono(b + 2, a);
  }

  lemma StepIs(n: nat, t: nat)
    requires t < n
    ensures Steps(n, t) == 1 + Steps(Next(n, t), t) && Steps(t, t) == 0
  {
  }

  /** The last few heights below a multiple of eight. */
  lemma LowEnd(x: nat, t: nat)
    requires Mult(x, 3) && x > 0 && x - 7 < t < x - 2
    ensures Steps(x - 2, t) <= 3
  {
    hide InvertLowestOne, GetSkipHeight, Pow, Mult, Steps;
    PowValues();
    OddSkip(x, 3, 1);
    OddSkip(x, 3, 2);
    ClearedOrZero(x - 8, 3);
    if t == x - 3 {
      OneStep(t);
    } else {
      StepIs(x - 2, t);
      assert Next(x - 2, t) == x - 4;
      if t < x - 4 {
        StepIs(x - 4, t);
        assert Next(x - 4, t) == x - 5;
        if t == x - 5 { StepIs(x - 2, t); } else { OneStep(t); }
      }
    }
  }

  lemma ClearedOrZero(x: nat, a: nat)
    requires Mult(x, a)
    ensures x > 0 ==> InvertLowestOne(x) + Pow(2, a) <= x
    ensures x == 0 ==> InvertLowestOne(x) == 0
  {
    hide Mult, Pow;
    if x > 0 { ClearedAtMost(x, a); }
  }

  /** The last odd height of the block. */
  lemma {:induction false} LadderEnd(x: nat, a: nat, t: nat)
    requires Mult(x, a) && x > 0 && a > 0 && a % 2 == 0 && x >= Pow(2, a - 1) && x - Pow(2, a) <= t < x - Pow(2, a - 1)
    ensures Steps(x - Pow(2, a - 1) + 1, t) + a / 2 <= Most(a)
    decreases x - Pow(2, a - 1) + 1, 0
  {
    hide InvertLowestOne, GetSkipHeight, Pow, Mult, Steps, Most;
    var m := x - Pow(2, a - 1);
    MostRoom(a);
    OddSkip(x, a, a - 1);
    ClearedOrZero(x - Pow(2, a), a);
    StepIs(m + 1, t);
    StepIs(m, t);
    if t <= 1 && x == Pow(2, a) {
      assert Next(m + 1, t) == 1;
      AtMostOne(t);
    } else {
      assert Next(m + 1, t) == m;
      if t == m - 1 {
        OneStep(t);
      } else if t == x - Pow(2, a) {
        assert Next(m, t) == t;
      } else {
        Block(m, a - 1, t);
        MostEven(a, m, t);
      }
    }
  }

  lemma AtMostOne(t: nat)
    requires t <= 1
    ensures Steps(1, t) <= 1
  {
    if t == 0 { OneStep(0); }
  }

  lemma MostEven(a: nat, m: nat, t: nat)
    requires a > 0 && a % 2 == 0 && m - Pow(2, a - 1) < t < m - 1
    ensures Most(a - 1) + (a + 2) / 2 <= Most(a)
  {
    PowValues();
  }

  // ----- from any height -----

  lemma LowBelow(n: nat, k: nat)
    requires 0 < n < Pow(2, k)
    ensures Low(n) < k
  {
    MultAtLeast(n, Low(n));
    if Low(n) >= k { PowExpMono(2, k, Low(n)); }
  }

  /** Clearing twice. */
  lemma LowGrows(n: nat)
    requires n > 0
    ensures InvertLowestOne(n) == n - Pow(2, Low(n)) && Mult(InvertLowestOne(n), Low(n) + 1)
    ensures InvertLowestOne(n) > 0 ==> Low(InvertLowestOne(n)) > Low(n)
  {
    hide InvertLowestOne, Low, Mult, Pow;
    LowCleared(n);
    if InvertLowestOne(n) > 0 { LowAtLeast(InvertLowestOne(n), Low(n) + 1); }
  }

  /** The end lies no lower than the height with the lowest one cleared. */
  lemma BlockOf(n: nat, k: nat, t: nat)
    requires 0 < n < Pow(2, k) && InvertLowestOne(n) <= t <= n
    ensures k > 0 && Steps(n, t) <= Most(k - 1)
  {
    hide InvertLowestOne, Low, Mult, Pow, Most, Next;
    LowBelow(n, k);
    LowGrows(n);
    if t < n {
      Block(n, Low(n), t);
      MostMono(Low(n), k - 1);
    }
  }

  /** From an even height with at least three zeros: one zero more with each step. */
  lemma {:induction false} EvenPhase(n: nat, k: nat, t: nat)
    requires 0 < n < Pow(2, k) && Low(n) >= 3 && t <= n
    ensures Low(n) < k && Steps(n, t) <= k - 1 - Low(n) + Most(k - 1)
    decreases n
  {
    hide InvertLowestOne, Low, Mult, Pow, Most, Next, Steps;
    var y := InvertLowestOne(n);
    LowBelow(n, k);
    LowGrows(n);
    if t >= y {
      BlockOf(n, k, t);
    } else {
      MultLess(n, Low(n), 3);
      EvenSkips(n, t);
      StepIs(n, t);
      EvenPhase(y, k, t);
    }
  }

  /** The skip pointer below an even height with one or two zeros. */
  lemma SkipBelow(n: nat)
    requires n > 0 && InvertLowestOne(n) > 0 && 1 <= Low(n) <= 2
    ensures var y := InvertLowestOne(n);
      && n >= 4 && n % 2 == 0 && GetSkipHeight(n) == y
      && (if Low(n) == 1 then y == n - 2 && GetSkipHeight(n - 1) == InvertLowestOne(InvertLowestOne(y)) + 1
          else y == n - 4 && Low(n - 2) == 1 && GetSkipHeight(n - 1) == InvertLowestOne(y) + 1)
  {
    hide InvertLowestOne, Mult, Pow, GetSkipHeight;
    PowValues();
    LowGrows(n);
    MultHalf(n, Low(n));
    SkipsFrom(n);
    if Low(n) == 2 { TwoMore(n - 4); }
    SkipsFrom(n - 2);
  }

  lemma TwoMore(y: nat)
    requires Mult(y, 3)
    ensures InvertLowestOne(y + 2) == y && Low(y + 2) == 1
  {
    assert y % 4 == 0;
    assert (y + 2) / 2 == y / 2 + 1 && (y / 2 + 1) % 2 == 1;
  }

  /** When the skip pointer of the block before leads too far, the own one is taken. */
  lemma TopSkips(m: nat, t: nat)
    requires m > 0 && m % 2 == 0 && InvertLowestOne(InvertLowestOne(m)) + 1 < t < InvertLowestOne(m)
    ensures Next(m, t) == InvertLowestOne(m)
  {
    hide InvertLowestOne, Mult, Pow, GetSkipHeight;
    if Low(m) >= 3 {
      MultLess(m, Low(m), 3);
      EvenSkips(m, t);
    } else {
      SkipBelow(m);
      NoLarger(InvertLowestOne(InvertLowestOne(m)));
    }
  }

  lemma NoLarger(n: nat)
    ensures InvertLowestOne(n) <= n
  {
  }

  /** At most one more skip before the last block. */
  lemma EvenTop(m: nat, k: nat, t: nat)
    requires 0 < m < Pow(2, k) && m % 2 == 0 && InvertLowestOne(InvertLowestOne(m)) + 1 < t <= m
    ensures k > 0 && Steps(m, t) <= 1 + Most(k - 1)
  {
    hide InvertLowestOne, Pow, Most, Next, Steps;
    var y := InvertLowestOne(m);
    if t >= y {
      BlockOf(m, k, t);
    } else {
      TopSkips(m, t);
      StepIs(m, t);
      BlockOf(y, k, t);
    }
  }

  /** From an odd height: two zeros more with each step. */
  lemma {:induction false} OddPhase(m: nat, k: nat, t: nat)
    requires 0 < m < Pow(2, k) && m % 2 == 0 && t <= m + 1
    ensures Low(m) < k && Steps(m + 1, t) <= (k - Low(m) + 1) / 2 + 2 + Most(k - 1)
    decreases m
  {
    hide InvertLowestOne, Low, Mult, Pow, Most, Steps, GetSkipHeight;
    LowBelow(m, k);
    var y := InvertLowestOne(m);
    var z := InvertLowestOne(y);
    SkipsFrom(m);
    NoLarger(y);
    if t == m + 1 {
      SameHeight(t);
    } else if t <= z + 1 {
      StepIs(m + 1, t);
      if z == 0 {
        AtMostOne(t);
      } else {
        ClearedTwice(m);
        OddPhase(z, k, t);
      }
    } else {
      StepIs(m + 1, t);
      EvenTop(m, k, t);
    }
  }

  lemma SameHeight(t: nat)
    ensures Steps(t, t) == 0
  {
  }

  lemma ClearedTwice(m: nat)
    requires m > 0 && m % 2 == 0 && InvertLowestOne(InvertLowestOne(m)) > 0
    ensures var z := InvertLowestOne(InvertLowestOne(m)); z < m && z % 2 == 0 && Low(z) >= Low(m) + 2
  {
    hide InvertLowestOne, Low, Mult, Pow;
    NoLarger(InvertLowestOne(0));
    var y := InvertLowestOne(m);
    NothingCleared();
    LowGrows(m);
    LowGrows(y);
    MultHalf(InvertLowestOne(y), Low(y) + 1);
  }

  lemma NothingCleared()
    ensures InvertLowestOne(0) == 0
  {
  }

  /** From an even height with one or two zeros. */
  lemma LowPhase(n: nat, k: nat, t: nat)
    requires 0 < n < Pow(2, k) && 1 <= Low(n) <= 2 && t <= n
    ensures k > 0 && Steps(n, t) <= k / 2 + 3 + Most(k - 1)
  {
    hide InvertLowestOne, Low, Mult, Pow, Most, Steps, GetSkipHeight;
    var y := InvertLowestOne(n);
    LowBelow(n, k);
    LowGrows(n);
    PowValues();
    if t >= y {
      BlockOf(n, k, t);
    } else {
      SkipBelow(n);
      StepIs(n, t);
      ClearedAtMost(y, Low(n) + 1);
      NoLarger(InvertLowestOne(y));
      if Next(n, t) == n - 1 {
        OddPhase(n - 2, k, t);
      } else if Low(n) == 1 {
        MultHalf(y, Low(n) + 1);
        EvenTop(y, k, t);
      } else {
        BlockOf(y, k, t);
      }
    }
  }

  /** What comes before the last block. */
  function Approach(k: nat): nat { if k - 4 > k / 2 + 3 then k - 4 else k / 2 + 3 }

  /** With skip pointers, the number of steps grows at most like the square of the number of binary digits. */
  lemma StepsBound(n: nat, k: nat, t: nat)
    requires n < Pow(2, k) && 0 < k && t <= n
    ensures Steps(n, t) <= Approach(k) + Most(k - 1) && 4 * (Approach(k) + Most(k - 1)) <= k * k + 9 * k + 10
  {
    hide InvertLowestOne, Pow, Steps, Most;
    BoundSquare(k);
    if n <= 1 {
      SameHeight(n);
      if t < n { AtMostOne(t); }
    } else if n % 2 == 1 {
      OddPhase(n - 1, k, t);
    } else if Low(n) >= 3 {
      EvenPhase(n, k, t);
    } else {
      LowPhase(n, k, t);
    }
  }

  lemma BoundSquare(k: nat)
    requires k > 0
    ensures 4 * (Approach(k) + Most(k - 1)) <= k * k + 9 * k + 10
  {
    hide Most;
    MostSquare(k - 1);
    Squared(k);
  }

  lemma Squared(k: int)
    ensures (k - 1) * (k - 1) + 7 * (k - 1) + 4 == k * k + 5 * k - 2
  {
  }

  lemma {:induction false} MultPow(a: nat)
    ensures Mult(Pow(2, a), a)
    decreases a
  {
    if a > 0 { MultPow(a - 1); }
  }

  /** Up to 2^18 blocks back takes at most 110 steps. */
  lemma Within110(n: nat, t: nat)
    requires t <= n <= Pow(2, 18)
    ensures Steps(n, t) <= 110
  {
    hide InvertLowestOne, Mult, Pow, Steps, Most;
    MostValues();
    if n < Pow(2, 18) {
      StepsBound(n, 18, t);
    } else if t < n {
      MultPow(18);
      Block(n, 18, t);
    } else {
      SameHeight(n);
    }
  }

  lemma MostValues()
    ensures Most(17) == 96 && Most(18) == 106
  {
    assert Most(5) == 12;
    assert Most(7) == 21;
    assert Most(9) == 32;
    assert Most(11) == 45;
    assert Most(13) == 60;
    assert Most(15) == 77;
    assert Most(17) == 96;
  }

  // ----- the bound is attained -----

  /** The odd heights below a power of two, all the way. */
  lemma {:induction false} LadderExact(a: nat, b: nat)
    requires a >= 4 && b % 2 == 1 && b < a
    ensures Pow(2, a) - Pow(2, b) + 1 >= 2 && Pow(2, a - 1) >= 2
    ensures Steps(Pow(2, a) - Pow(2, b) + 1, 2) + (b + 1) / 2 == Steps(Pow(2, a - 1), 2) + (a + 3) / 2
    decreases a - b
  {
    hide InvertLowestOne, Pow, Mult, Steps, GetSkipHeight;
    var x := Pow(2, a);
    var y := x - Pow(2, b) + 1;
    MultPow(a);
    OddSkip(x, a, b);
    PowValues();
    PowExpMono(2, 3, a - 1);
    PowSucc(2, a - 1);
    PowExpMono(2, b, a - 1);
    StepIs(y, 2);
    if b + 2 < a {
      PowExpMono(2, b + 2, a - 1);
      assert Next(y, 2) == x - Pow(2, b + 2) + 1;
      LadderExact(a, b + 2);
    } else if b + 2 == a {
      MultLess(x - Pow(2, b), b, 3);
      EvenSkip(x, a, b, 2);
    } else {
      NothingCleared();
    }
  }

  lemma {:induction false} PowerSteps(a: nat)
    requires a >= 3
    ensures Pow(2, a) >= 8 && Steps(Pow(2, a), 2) == Most(a)
    decreases a
  {
    hide InvertLowestOne, Pow, Mult, Steps, GetSkipHeight;
    PowValues();
    if a == 3 {
      FromEight();
    } else {
      PowerSteps(a - 1);
      PowSucc(2, a - 1);
      LadderExact(a, 1);
      MultPow(a);
      ClearedAtMost(Pow(2, a), a);
      SkipsFrom(Pow(2, a));
      StepIs(Pow(2, a), 2);
    }
  }

  lemma FromEight()
    ensures Steps(8, 2) == 5
  {
    assert Next(8, 2) == 7 && Next(7, 2) == 6 && Next(6, 2) == 4 && Next(4, 2) == 3 && Next(3, 2) == 2;
  }

  /** Ones only, down to three zeros at the end. */
  lemma {:induction false} OnesExact(k: nat, b: nat)
    requires 3 <= b < k
    ensures Pow(2, k) - Pow(2, b) >= 2 && Steps(Pow(2, k) - Pow(2, b), 2) == k - 1 - b + Most(k - 1)
    decreases k - b
  {
    hide InvertLowestOne, Pow, Mult, Steps, GetSkipHeight, Most;
    PowSucc(2, k - 1);
    PowerSteps(k - 1);
    PowExpMono(2, b, k - 1);
    if b < k - 1 {
      OnesExact(k, b + 1);
      MultPow(k);
      OddSkip(Pow(2, k), k, b);
      MultLess(Pow(2, k) - Pow(2, b), b, 3);
      EvenSkip(Pow(2, k), k, b, 2);
    }
  }

  /** From height 2^18 - 8 to height 2 it does take 110 steps. */
  lemma Takes110()
    ensures Pow(2, 18) >= 10 && Steps(Pow(2, 18) - 8, 2) == 110
  {
    hide Pow, Steps, Most;
    PowValues();
    OnesExact(18, 3);
    MostValues();
  }
}
