/** Little-endian numbers in 32-bit words, and what the word operations do to their value. */
module ArithWords {
  import opened Numbers

  const BASE: nat := 0x1_0000_0000

  predicate Words(d: seq<nat>) { forall k :: 0 <= k < |d| ==> d[k] < BASE }

  function Weight(j: nat): nat { Pow(2, 32 * j) }

  /** The number held by words, least significant first. */
  function Num(d: seq<nat>): nat
  {
    if d == [] then 0 else Num(d[..|d| - 1]) + d[|d| - 1] * Weight(|d| - 1)
  }

  lemma BaseIs()
    ensures Pow(2, 32) == BASE
  {
    hide Pow;
    PowFirst(2);
    PowAdd(2, 1, 1);
    PowAdd(2, 2, 2);
    PowAdd(2, 4, 4);
    PowAdd(2, 8, 8);
    PowAdd(2, 16, 16);
  }

  lemma WeightNext(j: nat)
    ensures Weight(0) == 1
    ensures Weight(j + 1) == Weight(j) * BASE
    ensures Weight(j) > 0
  {
    BaseIs();
    PowAdd(2, 32 * j, 32);
  }

  lemma WeightAdd(i: nat, j: nat)
    ensures Weight(i + j) == Weight(i) * Weight(j)
  {
    PowAdd(2, 32 * i, 32 * j);
  }

  lemma NumPrefix(d: seq<nat>, i: nat)
    requires i < |d|
    ensures Num(d[..i + 1]) == Num(d[..i]) + d[i] * Weight(i)
  {
    hide Weight;
    assert d[..i + 1][..i] == d[..i];
  }

  lemma {:induction false} NumZero(d: seq<nat>)
    requires forall k :: 0 <= k < |d| ==> d[k] == 0
    ensures Num(d) == 0
    decreases |d|
  {
    if d != [] { NumZero(d[..|d| - 1]); }
  }

  lemma {:induction false} NumBound(d: seq<nat>)
    requires Words(d)
    ensures Num(d) < Weight(|d|)
    decreases |d|
  {
    hide Weight;
    if d == [] {
      WeightNext(0);
    } else {
      var k := |d| - 1;
      NumBound(d[..k]);
      WeightNext(k);
      TopWord(Num(d[..k]), d[k], Weight(k));
    }
  }

  lemma TopWord(v: nat, x: nat, w: nat)
    requires v < w && x < BASE
    ensures v + x * w < w * BASE
  {
    Below(x, BASE, w);
  }

  /** Replacing one word changes the number by the difference at that word's weight. */
  lemma {:induction false} NumUpdate(d: seq<nat>, j: nat, x: nat)
    requires j < |d|
    ensures Num(d[j := x]) + d[j] * Weight(j) == Num(d) + x * Weight(j)
    decreases |d|
  {
    hide Weight;
    var k := |d| - 1;
    if j == k {
      assert d[j := x][..k] == d[..k];
    } else {
      NumUpdate(d[..k], j, x);
      assert d[j := x][..k] == d[..k][j := x];
    }
  }

  /** Adding to one word. */
  lemma NumAdd(d: seq<nat>, j: nat, x: nat)
    requires j < |d|
    ensures Num(d[j := d[j] + x]) == Num(d) + x * Weight(j)
  {
    hide Weight, Num;
    NumUpdate(d, j, d[j] + x);
    assert (d[j] + x) * Weight(j) == d[j] * Weight(j) + x * Weight(j);
  }

  /** The highest word that differs decides. */
  lemma {:induction false} NumCompare(d: seq<nat>, e: seq<nat>, i: nat)
    requires i < |d| == |e| && Words(d) && Words(e)
    requires d[i] < e[i] && forall k :: i < k < |d| ==> d[k] == e[k]
    ensures Num(d) < Num(e)
    decreases |d|
  {
    hide Weight;
    var k := |d| - 1;
    if i == k {
      NumBound(d[..k]);
      Below(d[k], e[k], Weight(k));
    } else {
      NumCompare(d[..k], e[..k], i);
    }
  }

  // ----- bits of a word -----

  /** Bitwise or. */
  function Or(x: nat, y: nat): nat
    decreases x + y
  {
    if x == 0 && y == 0 then 0
    else (if x % 2 == 1 || y % 2 == 1 then 1 else 0) + 2 * Or(x / 2, y / 2)
  }

  lemma {:induction false} OrCommutes(x: nat, y: nat)
    ensures Or(x, y) == Or(y, x)
    decreases x + y
  {
    if x != 0 || y != 0 { OrCommutes(x / 2, y / 2); }
  }

  lemma {:induction false} OrZero(x: nat)
    ensures Or(x, 0) == x
  {
    if x != 0 { OrZero(x / 2); }
  }

  /** Bits that do not meet add up. */
  lemma {:induction false} OrAdds(c: nat, y: nat, s: nat)
    requires y < Pow(2, s)
    ensures Or(c * Pow(2, s), y) == c * Pow(2, s) + y
    ensures Or(y, c * Pow(2, s)) == c * Pow(2, s) + y
    decreases s
  {
    OrCommutes(c * Pow(2, s), y);
    if s == 0 {
      OrZero(c);
    } else {
      HalveDouble(c, Pow(2, s - 1));
      OrAdds(c, y / 2, s - 1);
    }
  }

  lemma HalveDouble(c: nat, p: nat)
    ensures c * (2 * p) == 2 * (c * p) && c * (2 * p) / 2 == c * p && c * (2 * p) % 2 == 0
  {
    assert c * (2 * p) == 2 * (c * p);
  }

  function Shl(w: nat, s: nat): (r: nat)
    ensures r < BASE
  {
    w * Pow(2, s) % BASE
  }

  function Shr(w: nat, s: nat): (r: nat)
  {
    NonNegative(w, Pow(2, s));
    w / Pow(2, s)
  }

  lemma NonNegative(w: nat, p: nat)
    requires p > 0
    ensures w / p >= 0
  {
    var q := w / p;
    assert w == q * p + w % p;
    assert q < 0 ==> (q + 1) * p <= 0;
  }

  /** A word shifted left is split into what stays and what goes to the next word. */
  lemma ShiftSplit(w: nat, s: nat)
    requires w < BASE && s <= 32
    ensures w * Pow(2, s) == Shr(w, 32 - s) * BASE + Shl(w, s)
    ensures Shr(w, 32 - s) < Pow(2, s)
    ensures var r := w % Pow(2, 32 - s); 0 <= r && Shl(w, s) == r * Pow(2, s)
  {
    hide Pow;
    var p, u := Pow(2, s), Pow(2, 32 - s);
    BaseIs();
    PowAdd(2, s, 32 - s);
    NonNegative(w, u);
    var q, r := w / u, w % u;
    assert w == q * u + r;
    assert w * p == q * BASE + r * p by { SplitProduct(q, u, r, p); }
    assert r * p < BASE by { Below(r, u, p); }
    QuotientOf(q, r * p, BASE);
    assert q < p by { Gap(q, p, u); }
  }

  lemma SplitProduct(q: nat, u: nat, r: nat, p: nat)
    ensures (q * u + r) * p == q * (p * u) + r * p
  {
    assert (q * u + r) * p == (q * u) * p + r * p;
    assert (q * u) * p == q * (p * u);
  }

  // ----- shifting left -----

  /** What one word contributes to the shifted number. */
  lemma LeftContribution(w: nat, i: nat, k: nat, s: nat)
    requires w < BASE && s < 32
    ensures w * Weight(i) * Pow(2, 32 * k + s) == (w * Pow(2, s)) * Weight(i + k)
    ensures w * Weight(i) * Pow(2, 32 * k + s) == Shr(w, 32 - s) * Weight(i + k + 1) + Shl(w, s) * Weight(i + k)
  {
    hide Weight, Pow, Shr, Shl;
    var p := Pow(2, s);
    assert Pow(2, 32 * k + s) == Weight(k) * p by { ShiftWeight(k, s); }
    WeightAdd(i, k);
    Shuffle(w, Weight(i), Weight(k), p);
    ShiftSplit(w, s);
    WeightNext(i + k);
    var hi, lo, x := Shr(w, 32 - s), Shl(w, s), Weight(i + k);
    assert (hi * BASE + lo) * x == hi * (x * BASE) + lo * x by { SplitProduct(hi, BASE, lo, x); }
  }

  lemma ShiftWeight(k: nat, s: nat)
    ensures Pow(2, 32 * k + s) == Weight(k) * Pow(2, s)
  {
    PowAdd(2, 32 * k, s);
  }

  lemma Shuffle(w: nat, x: nat, y: nat, p: nat)
    ensures w * x * (y * p) == (w * p) * (x * y)
  {
    assert w * x * (y * p) == w * p * (x * y) by {
      assert w * x * (y * p) == w * (x * (y * p));
      assert x * (y * p) == p * (x * y) by {
        assert x * (y * p) == (x * y) * p;
      }
      assert w * (p * (x * y)) == w * p * (x * y);
    }
  }

  /** The words after one round of the left shift. */
  function LeftWords(d: seq<nat>, w: nat, i: nat, k: nat, s: nat): (r: seq<nat>)
    requires s < 32
    ensures |r| == |d|
  {
    var d1 := if i + k + 1 < |d| && s != 0 then d[i + k + 1 := Or(d[i + k + 1], Shr(w, 32 - s))] else d;
    if i + k < |d| then d1[i + k := Or(d1[i + k], Shl(w, s))] else d1
  }

  /** Room for the next word's bits: everything above is still zero. */
  predicate LeftRoom(d: seq<nat>, at: nat, s: nat)
  {
    && (forall j :: at < j < |d| ==> d[j] == 0)
    && (at < |d| ==> d[at] < Pow(2, s))
  }

  /** The bits that a round pushes over the top. */
  function LeftLost(n: nat, w: nat, i: nat, k: nat, s: nat): nat
    requires s < 32
  {
    if i + k + 1 < n then 0
    else if i + k + 1 == n then Shr(w, 32 - s)
    else (w * Pow(2, s)) * Weight(i + k - n)
  }

  lemma LeftStep(d: seq<nat>, w: nat, i: nat, k: nat, s: nat)
    requires w < BASE && s < 32 && Words(d) && LeftRoom(d, i + k, s)
    ensures var r := LeftWords(d, w, i, k, s);
      && Words(r) && LeftRoom(r, i + 1 + k, s)
      && Num(r) + At(LeftLost(|d|, w, i, k, s), |d|) == Num(d) + Share(w, i, k, s)
  {
    hide Weight, Pow, Num, Or, Shr, Shl, LeftLost, LeftRoom, Words, LeftWords, At, Share;
    LeftShape(d, w, i, k, s);
    LeftValue(d, w, i, k, s);
  }

  /** The same round with sums for bitwise ors. */
  function LeftSums(d: seq<nat>, w: nat, at: nat, s: nat): (r: seq<nat>)
    requires s < 32
    ensures |r| == |d|
  {
    var d0 := if at < |d| then d[at := d[at] + Shl(w, s)] else d;
    if at + 1 < |d| then d0[at + 1 := d0[at + 1] + Shr(w, 32 - s)] else d0
  }

  lemma LeftShape(d: seq<nat>, w: nat, i: nat, k: nat, s: nat)
    requires w < BASE && s < 32 && Words(d) && LeftRoom(d, i + k, s)
    ensures var r := LeftWords(d, w, i, k, s);
      r == LeftSums(d, w, i + k, s) && Words(r) && LeftRoom(r, i + 1 + k, s)
  {
    hide Pow, Or, Shr, Shl;
    if i + k < |d| { LeftJoin(d, w, i + k, s); }
  }

  /** A word at a place, and a word's share of a shifted number. */
  function At(x: nat, j: nat): nat { x * Weight(j) }

  function Share(w: nat, i: nat, k: nat, s: nat): nat { w * Weight(i) * Pow(2, 32 * k + s) }

  lemma LeftValue(d: seq<nat>, w: nat, i: nat, k: nat, s: nat)
    requires w < BASE && s < 32
    ensures Num(LeftSums(d, w, i + k, s)) + At(LeftLost(|d|, w, i, k, s), |d|) == Num(d) + Share(w, i, k, s)
  {
    hide Weight, Pow, Num, Shr, Shl, At, Share;
    var n, at, hi, lo := |d|, i + k, Shr(w, 32 - s), Shl(w, s);
    if at < n {
      ShareSplit(w, i, k, s);
      NumAddAt(d, at, lo);
      if at + 1 < n { NumAddAt(d[at := d[at] + lo], at + 1, hi); }
      NothingAt(n);
    } else {
      LeftOver(w, i, k, s, n);
    }
  }

  lemma NothingAt(n: nat)
    ensures At(0, n) == 0
  {
  }

  lemma NumAddAt(d: seq<nat>, j: nat, x: nat)
    requires j < |d|
    ensures Num(d[j := d[j] + x]) == Num(d) + At(x, j)
  {
    hide Num, Weight;
    NumAdd(d, j, x);
  }

  lemma ShareSplit(w: nat, i: nat, k: nat, s: nat)
    requires w < BASE && s < 32
    ensures Share(w, i, k, s) == At(Shr(w, 32 - s), i + k + 1) + At(Shl(w, s), i + k)
  {
    hide Weight, Pow, Shr, Shl;
    LeftContribution(w, i, k, s);
  }

  lemma LeftOver(w: nat, i: nat, k: nat, s: nat, n: nat)
    requires w < BASE && s < 32 && n <= i + k
    ensures At(w * Pow(2, s) * Weight(i + k - n), n) == Share(w, i, k, s)
  {
    hide Weight, Pow, Shr, Shl;
    LeftContribution(w, i, k, s);
    WeightAdd(i + k - n, n);
    var x, a, b := w * Pow(2, s), Weight(i + k - n), Weight(n);
    assert x * (a * b) == x * a * b;
  }

  /** Joining a word's low part onto the bits already there, its high part onto zero. */
  lemma LeftJoin(d: seq<nat>, w: nat, at: nat, s: nat)
    requires w < BASE && s < 32 && at < |d| && d[at] < Pow(2, s)
    ensures var hi, lo := Shr(w, 32 - s), Shl(w, s);
      && Or(d[at], lo) == d[at] + lo < BASE
      && Or(0, hi) == hi < BASE && hi < Pow(2, s) && (s == 0 ==> hi == 0)
  {
    hide Pow, Or, Shl, Shr;
    ShiftSplit(w, s);
    var c := w % Pow(2, 32 - s);
    OrAdds(c, d[at], s);
    WordSum(c, d[at], s, Shl(w, s));
    OrZeroes(Shr(w, 32 - s), s);
  }

  lemma OrZeroes(hi: nat, s: nat)
    requires hi < Pow(2, s) && s < 32
    ensures Or(0, hi) == hi && hi < BASE && (s == 0 ==> hi == 0)
  {
    OrZero(hi);
    OrCommutes(0, hi);
    BaseIs();
    PowExpMono(2, s, 32);
  }

  /** Low bits below a multiple leave the word a word. */
  lemma WordSum(c: nat, y: nat, s: nat, lo: nat)
    requires lo == c * Pow(2, s) < BASE && y < Pow(2, s) && s < 32
    ensures lo + y < BASE
  {
    hide Pow;
    BaseIs();
    PowAdd(2, 32 - s, s);
    Gap(c, Pow(2, 32 - s), Pow(2, s));
  }

  // ----- shifting right -----

  /** What one word contributes to the shifted number, and what it leaves behind. */
  lemma RightContribution(w: nat, i: nat, k: nat, s: nat)
    requires w < BASE && s < 32 && k <= i
    ensures Shl(w, 32 - s) % Pow(2, 32 - s) == 0
    ensures var r := w % Pow(2, s);
      && 0 <= r < Pow(2, s) && (s == 0 ==> r == 0)
      && w * Weight(i) == Shr(w, s) * Weight(i - k) * Pow(2, 32 * k + s) + r * Weight(i)
      && (i > k ==> r * Weight(i) == Shl(w, 32 - s) * Weight(i - k - 1) * Pow(2, 32 * k + s))
  {
    hide Weight, Pow, Shl;
    var p, u := Pow(2, s), Pow(2, 32 - s);
    ShiftWeight(k, s);
    NonNegative(w, p);
    var q, r := w / p, w % p;
    assert w == q * p + r;
    WeightAdd(i - k, k);
    var x, y := Weight(i - k), Weight(k);
    assert w * (x * y) == q * x * (y * p) + r * (x * y) by {
      Shuffle(q, x, y, p);
      assert (q * p + r) * (x * y) == (q * p) * (x * y) + r * (x * y);
    }
    OnePower(s, r);
    ShiftSplit(w, 32 - s);
    MultipleOf(r, u);
    if i > k {
      WeightNext(i - k - 1);
      BaseIs();
      PowAdd(2, s, 32 - s);
      var z := Weight(i - k - 1);
      assert r * u * z * (y * p) == r * (z * (p * u) * y) by { Reassociate(r, u, z, y, p); }
    }
  }

  lemma OnePower(s: nat, r: nat)
    requires r < Pow(2, s)
    ensures s == 0 ==> r == 0
  {
  }

  lemma MultipleOf(r: nat, u: nat)
    requires u > 0
    ensures (r * u) % u == 0
  {
    QuotientOf(r, 0, u);
  }

  lemma Reassociate(r: nat, u: nat, z: nat, y: nat, p: nat)
    ensures r * u * z * (y * p) == r * (z * (p * u) * y)
  {
    assert r * u * z * (y * p) == r * (u * z * (y * p));
    assert u * z * (y * p) == z * (p * u) * y by {
      assert u * z * (y * p) == (u * z * y) * p;
      assert (u * z * y) * p == p * u * (z * y);
      assert p * u * (z * y) == z * (p * u) * y;
    }
  }

  function RightWords(d: seq<nat>, w: nat, i: nat, k: nat, s: nat): (r: seq<nat>)
    requires s < 32 && i < |d|
    ensures |r| == |d|
  {
    var d1 := if i - k - 1 >= 0 && s != 0 then d[i - k - 1 := Or(d[i - k - 1], Shl(w, 32 - s))] else d;
    if i - k >= 0 then d1[i - k := Or(d1[i - k], Shr(w, s))] else d1
  }

  predicate RightRoom(d: seq<nat>, i: nat, k: nat, s: nat)
    requires s < 32
  {
    && (forall j :: 0 <= j < |d| && i <= j + k ==> d[j] == 0)
    && (k < i <= |d| + k ==> d[i - k - 1] < Pow(2, 32 - s))
  }

  /** The bits that a round leaves below the point. */
  function RightLost(w: nat, i: nat, k: nat, s: nat): (r: nat)
  {
    RemainderOf(w, Pow(2, s));
    if i > k then 0 else if i == k then (w % Pow(2, s)) * Weight(i) else w * Weight(i)
  }

  lemma RemainderOf(w: nat, p: nat)
    requires p > 0
    ensures 0 <= w % p < p
  {
  }

  lemma RightStep(d: seq<nat>, w: nat, i: nat, k: nat, s: nat)
    requires w < BASE && s < 32 && i < |d| && Words(d) && RightRoom(d, i, k, s)
    ensures var r := RightWords(d, w, i, k, s);
      && Words(r) && RightRoom(r, i + 1, k, s)
      && Num(r) * Pow(2, 32 * k + s) + RightLost(w, i, k, s) == Num(d) * Pow(2, 32 * k + s) + w * Weight(i)
  {
    hide Weight, Pow, Num, Or;
    hide Shr, Shl;
    if k <= i {
      var p, u := Pow(2, 32 * k + s), Pow(2, 32 - s);
      var hi, lo := Shr(w, s), Shl(w, 32 - s);
      RightContribution(w, i, k, s);
      ShiftSplit(w, 32 - s);
      OrZeroes32(hi, s);
      var d1 := d[i - k := hi];
      NumUpdate(d, i - k, hi);
      if i == k {
        assert RightWords(d, w, i, k, s) == d1;
        assert Num(d1) * p == Num(d) * p + hi * Weight(0) * p by { Spread(Num(d), hi * Weight(0), p); }
      } else {
        var at := i - k - 1;
        var c := w % Pow(2, s);
        OrAdds(c, d[at], 32 - s);
        WordSum32(c, d[at], s, lo);
        NumAdd(d1, at, lo);
        var d2 := d1[at := d[at] + lo];
        assert Num(d2) * p == Num(d) * p + hi * Weight(i - k) * p + lo * Weight(at) * p by {
          Spread(Num(d), hi * Weight(i - k), p);
          Spread(Num(d1), lo * Weight(at), p);
        }
        LowZero(c, s, d[at], lo);
        assert RightWords(d, w, i, k, s) == d2;
      }
    }
  }

  lemma LowZero(c: nat, s: nat, y: nat, lo: nat)
    requires s < 32 && c < Pow(2, s) && lo == c * Pow(2, 32 - s)
    ensures s == 0 ==> y + lo == y
  {
    OnePower(s, c);
    assert c == 0 ==> c * Pow(2, 32 - s) == 0;
  }

  lemma Spread(a: nat, b: nat, p: nat)
    ensures (a + b) * p == a * p + b * p
  {
  }

  lemma OrZeroes32(hi: nat, s: nat)
    requires s < 32 && hi < Pow(2, 32 - s)
    ensures Or(0, hi) == hi && hi < BASE
  {
    OrZero(hi);
    OrCommutes(0, hi);
    BaseIs();
    PowExpMono(2, 32 - s, 32);
  }

  lemma WordSum32(c: nat, y: nat, s: nat, lo: nat)
    requires s < 32 && lo == c * Pow(2, 32 - s) < BASE && y < Pow(2, 32 - s)
    ensures lo + y < BASE
  {
    hide Pow;
    BaseIs();
    PowAdd(2, s, 32 - s);
    Gap(c, Pow(2, s), Pow(2, 32 - s));
  }

  // ----- single bits -----

  /** All bits below t are zero. */
  predicate LowClear(d: seq<nat>, t: nat)
  {
    forall j :: 0 <= j < |d| ==> WordClear(d[j], j, t)
  }

  predicate WordClear(x: nat, j: nat, t: nat)
  {
    && (32 * j + 32 <= t ==> x == 0)
    && (32 * j <= t < 32 * j + 32 ==> x % Pow(2, t - 32 * j) == 0)
  }

  /** Setting a bit below which everything is zero, itself included. */
  lemma SetBit(d: seq<nat>, t: nat)
    requires t < 32 * |d| && Words(d) && LowClear(d, t + 1)
    ensures var r := d[t / 32 := Or(d[t / 32], Pow(2, t % 32))];
      Words(r) && LowClear(r, t) && Num(r) == Num(d) + Pow(2, t)
  {
    hide Weight, Pow, Num, Or, LowClear;
    var j, s := t / 32, t % 32;
    var x := d[j];
    ClearAt(d, t + 1, j);
    SetWordBit(x, j, s, t);
    NumAdd(d, j, Pow(2, s));
    ShiftWeight(j, s);
    LowerClear(d, t, Or(x, Pow(2, s)));
  }

  lemma ClearAt(d: seq<nat>, t: nat, j: nat)
    requires j < |d| && LowClear(d, t)
    ensures WordClear(d[j], j, t)
  {
  }

  lemma SetWordBit(x: nat, j: nat, s: nat, t: nat)
    requires t == 32 * j + s && s < 32 && x < BASE && WordClear(x, j, t + 1)
    ensures Or(x, Pow(2, s)) == x + Pow(2, s) < BASE && WordClear(x + Pow(2, s), j, t)
  {
    hide Pow, Or;
    BaseIs();
    PowStep(2, s);
    PowSucc(2, s);
    var p, u := Pow(2, s), Pow(2, s + 1);
    var c := if s == 31 then 0 else x / u;
    NonNegative(x, u);
    assert x == c * u;
    OrAdds(c, p, s + 1);
    OddMultiple(c, p);
    PowAdd(2, s + 1, 31 - s);
    FitsAbove(c, u, Pow(2, 31 - s), p);
  }

  lemma OddMultiple(c: nat, p: nat)
    requires p > 0
    ensures (c * (2 * p) + p) % p == 0
  {
    assert c * (2 * p) + p == (2 * c + 1) * p + 0;
    QuotientOf(2 * c + 1, 0, p);
  }

  lemma FitsAbove(c: nat, u: nat, v: nat, p: nat)
    requires u * v == BASE && c * u < BASE && p < u
    ensures c * u + p < BASE
  {
    Gap(c, v, u);
  }

  lemma LowerClear(d: seq<nat>, t: nat, y: nat)
    requires t < 32 * |d| && LowClear(d, t + 1) && WordClear(y, t / 32, t)
    ensures LowClear(d[t / 32 := y], t)
  {
    hide Pow;
    var r := d[t / 32 := y];
    forall j | 0 <= j < |r| ensures WordClear(r[j], j, t) {
      if j != t / 32 { NextClear(d[j], j, t); }
    }
  }

  lemma NextClear(x: nat, j: nat, t: nat)
    requires WordClear(x, j, t + 1) && j != t / 32
    ensures WordClear(x, j, t)
  {
    hide Pow;
  }

  lemma StillClear(d: seq<nat>, t: nat)
    requires LowClear(d, t + 1)
    ensures LowClear(d, t)
  {
    hide Pow;
    forall j | 0 <= j < |d| ensures WordClear(d[j], j, t) {
      if j != t / 32 { NextClear(d[j], j, t); } else { HalfClear(d[j], j, t); }
    }
  }

  lemma HalfClear(x: nat, j: nat, t: nat)
    requires WordClear(x, j, t + 1) && j == t / 32
    ensures WordClear(x, j, t)
  {
    hide Pow;
    var s := t - 32 * j;
    var p := Pow(2, s);
    PowSucc(2, s);
    if s == 31 {
      QuotientOf(0, 0, p);
    } else {
      NonNegative(x, 2 * p);
      var c := x / (2 * p);
      assert x == c * (2 * p);
      assert x == (2 * c) * p + 0;
      QuotientOf(2 * c, 0, p);
    }
  }

  // ----- the number of bits -----

  /** The position of the highest one bit plus one, or zero. */
  function BitLen(v: nat): (n: nat)
    ensures v < Pow(2, n) && (n > 0 ==> Pow(2, n - 1) <= v)
  {
    if v == 0 then 0 else 1 + BitLen(v / 2)
  }

  lemma BitLenUnique(v: nat, n: nat)
    requires v < Pow(2, n) && (n > 0 ==> Pow(2, n - 1) <= v)
    ensures BitLen(v) == n
  {
    hide Pow;
    var m := BitLen(v);
    if m < n { PowExpMono(2, m, n - 1); }
    if n < m { PowExpMono(2, n, m - 1); }
  }

  /** The bit length of a number follows from that of its highest word that is not zero. */
  lemma BitLenWords(d: seq<nat>, pos: nat, bits: nat)
    requires pos < |d| && Words(d) && forall k :: pos < k < |d| ==> d[k] == 0
    requires bits < 32 && Pow(2, bits) <= d[pos] < Pow(2, bits + 1)
    ensures BitLen(Num(d)) == 32 * pos + bits + 1
  {
    hide Pow, Num, BitLen;
    NumTop(d, pos + 1);
    NumPrefix(d, pos);
    NumBound(d[..pos]);
    var v, x, w := Num(d[..pos]), d[pos], Weight(pos);
    ShiftWeight(pos, bits);
    ShiftWeight(pos, bits + 1);
    MulMono(Pow(2, bits), x, w, w);
    Below(x, Pow(2, bits + 1), w);
    assert w * Pow(2, bits + 1) == Pow(2, bits + 1) * w && w * Pow(2, bits) == Pow(2, bits) * w;
    BitLenUnique(Num(d), 32 * pos + bits + 1);
  }

  /** Words above m that are zero do not count. */
  lemma {:induction false} NumTop(d: seq<nat>, m: nat)
    requires m <= |d| && forall k :: m <= k < |d| ==> d[k] == 0
    ensures Num(d) == Num(d[..m])
    decreases |d|
  {
    hide Weight;
    if m == |d| {
      assert d[..m] == d;
    } else {
      var k := |d| - 1;
      NumTop(d[..k], m);
      assert d[..k][..m] == d[..m];
    }
  }

  /** Testing a bit of a word that has no higher bits. */
  lemma TopBit(x: nat, bits: nat)
    requires x < Pow(2, bits + 1)
    ensures (x / Pow(2, bits)) % 2 == 1 <==> x >= Pow(2, bits)
  {
    hide Pow;
    PowSucc(2, bits);
    var p := Pow(2, bits);
    if x >= p { QuotientOf(1, x - p, p); } else { QuotientOf(0, x, p); }
  }

  // ----- reduction modulo the width -----

  lemma Reduced(v: nat, over: nat, t: nat, x: nat)
    requires v < t && v + over * t == x
    ensures v == x % t && over == x / t
  {
    QuotientOf(over, v, t);
  }

  // ----- carries -----

  /** A carry loop stores the low half of n at word i and keeps the high half. */
  lemma CarryStep(d: seq<nat>, i: nat, n: nat)
    requires i < |d|
    ensures var lo, hi := n % BASE, n / BASE;
      Num(d[i := lo]) + hi * Weight(i + 1) + d[i] * Weight(i) == Num(d) + n * Weight(i)
  {
    hide Weight, Num;
    var lo, hi := n % BASE, n / BASE;
    NumUpdate(d, i, lo);
    WeightNext(i);
    SplitProduct(hi, BASE, lo, Weight(i));
  }

  /** Everything at and above word m, as a multiple of that word's weight. */
  function High(d: seq<nat>, m: nat): (h: nat)
    requires m <= |d|
    ensures Num(d) == Num(d[..m]) + h * Weight(m)
    decreases |d|
  {
    if m == |d| then assert d[..m] == d; 0
    else
      var k := |d| - 1;
      var h := High(d[..k], m);
      HighStep(d, m, h);
      h + d[k] * Weight(k - m)
  }

  lemma HighStep(d: seq<nat>, m: nat, h: nat)
    requires m < |d|
    requires Num(d[..|d| - 1]) == Num(d[..|d| - 1][..m]) + h * Weight(m)
    ensures Num(d) == Num(d[..m]) + (h + d[|d| - 1] * Weight(|d| - 1 - m)) * Weight(m)
  {
    hide Weight, Num;
    var k := |d| - 1;
    assert d[..k][..m] == d[..m] && d[..k + 1] == d;
    NumPrefix(d, k);
    WeightAdd(k - m, m);
    Spread(h, d[k] * Weight(k - m), Weight(m));
    assert d[k] * Weight(k - m) * Weight(m) == d[k] * (Weight(k - m) * Weight(m));
  }

  /** The complement of every word. */
  lemma {:induction false} Complement(d: seq<nat>, e: seq<nat>)
    requires |d| == |e| && Words(d) && forall k :: 0 <= k < |d| ==> e[k] == BASE - 1 - d[k]
    ensures Num(d) + Num(e) + 1 == Weight(|d|)
    decreases |d|
  {
    hide Weight;
    if d == [] {
      WeightNext(0);
    } else {
      var k := |d| - 1;
      Complement(d[..k], e[..k]);
      WeightNext(k);
      assert d[k] * Weight(k) + e[k] * Weight(k) == (BASE - 1) * Weight(k) by { Spread(d[k], e[k], Weight(k)); }
    }
  }
}
