/** The chameleon hash: whoever knows the trapdoor key can open a hash to any other message. */
module Chameleon {
  import opened Numbers

  // ----- arithmetic modulo a number -----

  lemma ModUnique(a: int, m: nat, k: int, r: nat)
    requires m > 0 && r < m && a == k * m + r
    ensures a % m == r
  {
    var d := a / m;
    assert a == d * m + a % m;
    Gap(d, k, m);
  }

  lemma ModShift(a: int, k: int, m: nat)
    requires m > 0
    ensures (a + k * m) % m == a % m
  {
    var d := a / m;
    assert a == d * m + a % m;
    assert a + k * m == (d + k) * m + a % m;
    ModUnique(a + k * m, m, d + k, a % m);
  }

  lemma ModMulLeft(a: int, b: int, m: nat)
    requires m > 0
    ensures ((a % m) * b) % m == (a * b) % m
  {
    var d, r := a / m, a % m;
    assert a == d * m + r;
    Spread(d, m, r, b);
    ModShift(r * b, d * b, m);
  }

  lemma Spread(d: int, m: int, r: int, b: int)
    ensures (d * m + r) * b == r * b + (d * b) * m
  {
    assert (d * m + r) * b == (d * m) * b + r * b;
    assert (d * m) * b == (d * b) * m;
  }

  lemma ModMul(a: int, b: int, m: nat)
    requires m > 0
    ensures ((a % m) * (b % m)) % m == (a * b) % m
  {
    ModMulLeft(a, b % m, m);
    ModMulLeft(b, a, m);
    assert a * (b % m) == (b % m) * a;
  }

  /** Powers may be taken of residues. */
  lemma {:induction false} PowMod(b: nat, e: nat, m: nat)
    requires m > 0
    ensures Pow(b % m, e) % m == Pow(b, e) % m
    decreases e
  {
    hide Pow;
    var a := b % m;
    if e > 0 {
      PowMod(b, e - 1, m);
      SameResidue(b, Pow(a, e - 1), Pow(b, e - 1), m);
      PowSucc(a, e - 1);
      PowSucc(b, e - 1);
    } else {
      PowNone(a);
      PowNone(b);
    }
  }

  lemma PowNone(b: nat)
    ensures Pow(b, 0) == 1
  {
  }

  lemma SameResidue(b: nat, x: nat, y: nat, m: nat)
    requires m > 0 && x % m == y % m
    ensures ((b % m) * x) % m == (b * y) % m
  {
    ModMulLeft(b, x, m);
    ModMulLeft(x, b, m);
    ModMulLeft(y, b, m);
    Commute(b, x);
    Commute(b, y);
  }

  lemma Commute(a: int, b: int)
    ensures a * b == b * a
  {
  }

  lemma {:induction false} PowOne(j: nat)
    ensures Pow(1, j) == 1
    decreases j
  {
    if j > 0 { PowOne(j - 1); }
  }

  // ----- the scheme -----

  /** Keys: p = 2q + 1, a generator g of order q, the trapdoor tk and the public hk; and the hash of
      a message with a random value, as a number below q. */
  datatype Scheme = Scheme(p: nat, q: nat, g: nat, tk: nat, hk: nat, hashInput: (int, nat) -> nat)

  ghost predicate Keys(c: Scheme)
  {
    && c.p == 2 * c.q + 1 && c.g < c.q && c.q > 1
    && Pow(c.g, c.q) % c.p == 1
    && c.hk % c.p == Pow(c.g, c.tk) % c.p
    && forall m, r :: c.hashInput(m, r) < c.q
  }

  /** The hash of a message under the random pair (r, s). */
  function CHash(c: Scheme, m: int, r: nat, s: nat): (h: nat)
    requires c.p > 0 && c.q > 0
    ensures h < c.q
  {
    var x := c.hashInput(m, r);
    var t1 := Pow(c.hk, x) % c.p;
    var t2 := Pow(c.g, s) % c.p;
    var t3 := (t1 * t2) % c.p;
    (r - t3) % c.q
  }

  /** A random pair under which another message has the same hash h. */
  function HCol(c: Scheme, h: nat, m2: int): (nat, nat)
    requires c.q > 0
  {
    var k := 1;
    var r := Pow(c.g, k) % c.q;
    var r2 := (h + r) % c.q;
    var x := c.hashInput(m2, r2);
    var t1 := (x * c.tk) % c.q;
    (r2, (k - t1) % c.q)
  }

  /** The public key to a power is the generator to a multiple of the trapdoor. */
  lemma PublicPower(c: Scheme, x: nat)
    requires Keys(c)
    ensures Pow(c.hk, x) % c.p == Pow(c.g, c.tk * x) % c.p
  {
    PowMod(c.hk, x, c.p);
    PowMod(Pow(c.g, c.tk), x, c.p);
    PowMul(c.g, c.tk, x);
  }

  /** What masks the message: a power of the generator, by the trapdoor exponent. */
  function Mask(c: Scheme, m: int, r: nat, s: nat): (t: nat)
    requires c.p > 0
  {
    Pow(c.g, c.tk * c.hashInput(m, r) + s) % c.p
  }

  lemma MaskedPower(c: Scheme, x: nat, s: nat)
    requires Keys(c)
    ensures ((Pow(c.hk, x) % c.p) * (Pow(c.g, s) % c.p)) % c.p == Pow(c.g, c.tk * x + s) % c.p
  {
    hide Pow;
    PublicPower(c, x);
    ModMul(Pow(c.g, c.tk * x), Pow(c.g, s), c.p);
    PowAdd(c.g, c.tk * x, s);
  }

  /** The hash is the one number below q that together with the mask gives r. */
  lemma HashIs(c: Scheme, m: int, r: nat, s: nat, h: nat)
    requires Keys(c) && h < c.q
    ensures h == CHash(c, m, r, s) <==> (h + Mask(c, m, r, s)) % c.q == r % c.q
  {
    hide Pow;
    MaskedPower(c, c.hashInput(m, r), s);
    Difference(h, Mask(c, m, r, s), r, c.q);
  }

  lemma Difference(h: nat, t: nat, r: nat, q: nat)
    requires h < q
    ensures h == (r - t) % q <==> (h + t) % q == r % q
  {
    var d := (r - t) / q;
    var k := (r - t) % q;
    assert r - t == d * q + k;
    ModShift(k + t, d, q);
    assert k + t + d * q == r;
    SameSum(h, k, t, q);
  }

  lemma SameSum(h: nat, k: nat, t: nat, q: nat)
    requires h < q && k < q
    ensures (h + t) % q == (k + t) % q <==> h == k
  {
    var a, b := (h + t) / q, (k + t) / q;
    assert h + t == a * q + (h + t) % q && k + t == b * q + (k + t) % q;
    Gap(a, b, q);
  }

  /** Under one r, two messages have the same hash exactly when their masks agree modulo q. */
  lemma HashesAgree(c: Scheme, m1: int, s1: nat, m2: int, s2: nat, r: nat)
    requires Keys(c)
    ensures CHash(c, m1, r, s1) == CHash(c, m2, r, s2) <==> Mask(c, m1, r, s1) % c.q == Mask(c, m2, r, s2) % c.q
  {
    hide Pow, Mask;
    var h := CHash(c, m1, r, s1);
    var t1, t2 := Mask(c, m1, r, s1), Mask(c, m2, r, s2);
    HashIs(c, m1, r, s1, h);
    HashIs(c, m2, r, s2, h);
    SameMask(h, t1, t2, c.q);
  }

  lemma SameMask(h: nat, t1: nat, t2: nat, q: nat)
    requires q > 0
    ensures (h + t1) % q == (h + t2) % q <==> t1 % q == t2 % q
  {
    var a, b := t1 / q, t2 / q;
    assert t1 == a * q + t1 % q && t2 == b * q + t2 % q;
    ModShift(h + t1 % q, a, q);
    ModShift(h + t2 % q, b, q);
    SameSum(t1 % q, t2 % q, h, q);
  }

  /** Exponents of the generator count modulo q. */
  lemma OrderPower(c: Scheme, j: nat)
    requires Keys(c)
    ensures Pow(c.g, 1 + c.q * j) % c.p == c.g
  {
    hide Pow;
    PowAdd(c.g, 1, c.q * j);
    PowMul(c.g, c.q, j);
    PowMod(Pow(c.g, c.q), j, c.p);
    PowOne(j);
    PowFirst(c.g);
    ModMul(c.g, Pow(c.g, c.q * j), c.p);
    SmallMod(c.g, c.p);
    SmallMod(1, c.p);
  }

  /** With the trapdoor exponent, the masked value collapses to the generator. */
  lemma Collapse(c: Scheme, x: nat, s: nat)
    requires Keys(c) && s == (1 - (x * c.tk) % c.q) % c.q
    ensures ((Pow(c.hk, x) % c.p) * (Pow(c.g, s) % c.p)) % c.p == c.g
  {
    hide Pow;
    var j := Exponent(c, x, s);
    MaskedPower(c, x, s);
    OrderPower(c, j);
  }

  lemma Exponent(c: Scheme, x: nat, s: nat) returns (j: nat)
    requires c.q > 1 && s == (1 - (x * c.tk) % c.q) % c.q
    ensures c.tk * x + s == 1 + c.q * j
  {
    var t := x * c.tk;
    var d, r := t / c.q, t % c.q;
    assert t == d * c.q + r;
    assert c.tk * x == t;
    if r <= 1 {
      SmallMod(1 - r, c.q);
      j := d;
      assert c.q * j == d * c.q;
    } else {
      ModShift(1 - r, 1, c.q);
      SmallMod(1 - r + c.q, c.q);
      assert 1 - r + 1 * c.q == 1 - r + c.q;
      j := d + 1;
      assert c.q * j == d * c.q + c.q;
    }
  }

  lemma SmallMod(a: nat, m: nat)
    requires a < m
    ensures a % m == a
  {
  }

  /** The pair found with the trapdoor gives the second message the hash of the first, whatever the
      messages, the first pair and the inner hash function. */
  lemma Collision(c: Scheme, m1: int, r1: nat, s1: nat, m2: int)
    requires Keys(c) && r1 < c.q && s1 < c.q
    ensures var h := CHash(c, m1, r1, s1);
            var (r2, s2) := HCol(c, h, m2);
            r2 < c.q && s2 < c.q && CHash(c, m2, r2, s2) == h
  {
    var h := CHash(c, m1, r1, s1);
    var (r2, s2) := HCol(c, h, m2);
    var x := c.hashInput(m2, r2);
    Collapse(c, x, s2);
    assert Pow(c.g, 1) == c.g * Pow(c.g, 0) == c.g;
    SmallMod(c.g, c.q);
    BackShift(h, c.g, c.q);
  }

  lemma BackShift(h: nat, g: nat, q: nat)
    requires h < q && g < q
    ensures ((h + g) % q - g) % q == h
  {
    if h + g < q {
      SmallMod(h + g, q);
      SmallMod(h, q);
    } else {
      ModUnique(h + g, q, 1, h + g - q);
      ModUnique(h - q, q, -1, h);
    }
  }

  /** The verification step: recomputes the hash of the second message and compares. */
  method HVer(c: Scheme, h1: nat, m2: int, r2: nat, s2: nat) returns (ok: bool)
    requires c.p > 0 && c.q > 0
    ensures ok <==> CHash(c, m2, r2, s2) == h1
  {
    var h2 := CHash(c, m2, r2, s2);
    ok := h2 == h1;
  }

  /** Hashing a message, opening the hash to another one with the trapdoor, and verifying: the pair is
      in range for hashing and verification always accepts. */
  method Reopen(c: Scheme, m1: int, r1: nat, s1: nat, m2: int) returns (h: nat, r2: nat, s2: nat, ok: bool)
    requires Keys(c) && r1 < c.q && s1 < c.q
    ensures h == CHash(c, m1, r1, s1) && r2 < c.q && s2 < c.q && ok
  {
    hide Pow, CHash, HCol;
    h := CHash(c, m1, r1, s1);
    var pair := HCol(c, h, m2);
    r2, s2 := pair.0, pair.1;
    Collision(c, m1, r1, s1, m2);
    ok := HVer(c, h, m2, r2, s2);
  }

  /** Keys of the required kind exist: 23 = 2 * 11 + 1, and 2 has order 11. */
  lemma SomeKeys()
    ensures Keys(Scheme(23, 11, 2, 3, 8, (_, _) => 5))
  {
    PowFirst(2);
    PowAdd(2, 1, 1);
    PowAdd(2, 2, 1);
    PowAdd(2, 3, 3);
    PowAdd(2, 6, 3);
    PowAdd(2, 9, 2);
    assert Pow(2, 11) == 2048 && Pow(2, 3) == 8;
  }
}
