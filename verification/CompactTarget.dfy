/** Difficulty targets in compact form, and the work they stand for. */
module CompactTarget {
  import opened Numbers
  import opened ArithWords
  import opened ArithUint

  /** 256 to the j-th. */
  function Bytes(j: nat): (p: nat)
    ensures p > 0
  {
    Pow(2, 8 * j)
  }

  function Top(): nat { Pow(2, 256) }

  lemma SmallPowers()
    ensures Bytes(0) == 1 && Bytes(1) == 0x100 && Bytes(2) == 0x1_0000 && Bytes(3) == 0x100_0000
    ensures Pow(2, 15) == 0x8000 && Pow(2, 23) == 0x80_0000 && Bytes(4) == BASE
  {
    hide Pow;
    LastBit();
    BaseIs();
    PowAdd(2, 1, 1);
    PowAdd(2, 2, 2);
    PowAdd(2, 4, 4);
    PowAdd(2, 8, 8);
    PowAdd(2, 8, 4);
    PowAdd(2, 12, 2);
    PowAdd(2, 14, 1);
    PowAdd(2, 15, 8);
    PowAdd(2, 16, 8);
  }

  lemma BytesAdd(i: nat, j: nat)
    ensures Bytes(i + j) == Bytes(i) * Bytes(j)
  {
    PowAdd(2, 8 * i, 8 * j);
  }

  // ----- reading -----

  function Mantissa(c: nat): (m: nat) { c % 0x80_0000 }
  function Exponent(c: nat): (e: nat) { c / 0x100_0000 }
  predicate Signed(c: nat) { (c / 0x80_0000) % 2 == 1 }

  /** The number a compact form stands for, sign aside: mantissa times 256 to the (exponent - 3), rounded down. */
  function Exact(c: nat): (v: nat)
  {
    var m, e := Mantissa(c), Exponent(c);
    if e <= 3 then Shr(m, 8 * (3 - e)) else m * Bytes(e - 3)
  }

  /** The three guards of the overflow flag say exactly that the number does not fit. */
  lemma OverflowIff(w: nat, e: nat)
    requires w < 0x80_0000 && e > 3
    ensures (w != 0 && (e > 34 || (w > 0xff && e > 33) || (w > 0xffff && e > 32))) <==> w * Bytes(e - 3) >= Top()
  {
    hide Bytes, Top;
    SmallPowers();
    TopIs();
    if e > 34 {
      FitsIff(w, e - 3, 0);
    } else if e == 34 {
      FitsIff(w, 31, 1);
    } else if e == 33 {
      FitsIff(w, 30, 2);
    } else {
      FitsIff(w, e - 3, 3);
    }
  }

  lemma TopIs()
    ensures Top() == Bytes(32)
  {
  }

  lemma FitsIff(w: nat, j: nat, r: nat)
    ensures j + r == 32 ==> (w * Bytes(j) >= Top() <==> w >= Bytes(r))
    ensures j + r <= 32 && w < Bytes(r) ==> w * Bytes(j) < Top()
    ensures j >= 32 && w >= 1 ==> w * Bytes(j) >= Top()
    ensures w == 0 ==> w * Bytes(j) == 0 < Top()
  {
    hide Bytes;
    TopIs();
    if j + r <= 32 {
      BytesAdd(j, r);
      Gap(w, Bytes(r), Bytes(j));
      BytesMono(j + r, 32);
      assert Bytes(j) * Bytes(r) == Bytes(r) * Bytes(j);
    }
    if j >= 32 {
      BytesMono(32, j);
      if w >= 1 { MulMono(1, w, Bytes(j), Bytes(j)); }
    }
    BytesMono(0, 32);
    SmallPowers();
  }

  lemma BytesMono(i: nat, j: nat)
    requires i <= j
    ensures Bytes(i) <= Bytes(j)
  {
    PowExpMono(2, 8 * i, 8 * j);
  }

  method SetCompact(x: BaseUint, c: nat) returns (negative: bool, overflow: bool)
    requires x.Valid() && x.pn.Length == 8 && c < BASE
    modifies x.pn
    ensures x.Valid() && x.Value() == Exact(c) % Top()
    ensures overflow <==> Exact(c) >= Top()
    ensures !overflow ==> x.Value() == Exact(c)
    ensures negative <==> Signed(c) && Exact(c) != 0
  {
    hide Pow, Num, Bytes, Top;
    var size, word := Exponent(c), Mantissa(c);
    ModulusTop(x);
    if size <= 3 {
      word := Shr(word, 8 * (3 - size));
      SmallStays(Mantissa(c), Pow(2, 8 * (3 - size)));
      x.Assign(word);
    } else {
      x.Assign(word);
      x.ShiftLeft(8 * (size - 3));
      OverflowIff(word, size);
      BytesIs(size - 3);
      ZeroIff(word, Bytes(size - 3));
    }
    negative := word != 0 && Signed(c);
    overflow := word != 0 && (size > 34 || (word > 0xff && size > 33) || (word > 0xffff && size > 32));
    SmallFits(word);
    if Exact(c) < Top() { QuotientOf(0, Exact(c), Top()); }
  }

  lemma BytesIs(j: nat)
    ensures Bytes(j) == Pow(2, 8 * j)
  {
  }

  lemma ModulusTop(x: BaseUint)
    ensures x.pn.Length == 8 ==> x.Modulus() == Top()
  {
    ModulusIs(x);
  }

  lemma SmallStays(m: nat, p: nat)
    requires p > 0
    ensures 0 <= m / p <= m
  {
    NonNegative(m, p);
    var q := m / p;
    assert m == q * p + m % p;
    MulMono(q, q, 1, p);
  }

  lemma ZeroIff(a: nat, b: nat)
    requires b > 0
    ensures a * b == 0 <==> a == 0
  {
    ZeroProduct(a, b);
  }

  lemma SmallFits(w: nat)
    ensures w < 0x80_0000 ==> w < Top()
  {
    hide Pow, Bytes, Top;
    SmallPowers();
    TopIs();
    BytesMono(3, 32);
  }

  // ----- writing -----

  /** The leading three bytes of a number of the given size in bytes. */
  function Leading(v: nat, size: nat): (m: nat)
  {
    if size <= 3 then v * Bytes(3 - size) else Shr(v, 8 * (size - 3))
  }

  /** The compact form of a number, as the writer computes it. */
  function Compact(v: nat, negative: bool): (c: nat)
  {
    hide Pow, BitLen, Leading;
    var size := (BitLen(v) + 7) / 8;
    var word := Leading(v, size);
    var shrink := word / 0x80_0000 % 2 == 1;
    Pack(if shrink then word / 0x100 else word, if shrink then size + 1 else size, negative)
  }

  function Pack(word: nat, size: nat, negative: bool): nat
  {
    word + size * 0x100_0000 + (if negative && word % 0x80_0000 != 0 then 0x80_0000 else 0)
  }

  /** The size in bytes, counting one more when the top bit of the first byte is in use. */
  function Size(v: nat): nat { if v == 0 then 0 else BitLen(v) / 8 + 1 }

  /** The leading bytes have the number's own leading bits. */
  lemma LeadingBounds(v: nat, s: nat, e: nat)
    requires v > 0 && BitLen(v) + 24 - 8 * s == e + 1
    ensures Pow(2, e) <= Leading(v, s) < Pow(2, e + 1)
  {
    hide Pow, BitLen;
    BitsZero(v);
    var n := BitLen(v);
    if s <= 3 {
      var j := 8 * (3 - s);
      PowAdd(2, n - 1, j);
      PowAdd(2, n, j);
      MulMono(Pow(2, n - 1), v, Pow(2, j), Pow(2, j));
      Below(v, Pow(2, n), Pow(2, j));
    } else {
      var j := 8 * (s - 3);
      PowAdd(2, e, j);
      PowAdd(2, e + 1, j);
      QuotientBounds(v, Pow(2, j), Pow(2, e), Pow(2, e + 1));
    }
  }

  lemma QuotientBounds(v: nat, p: nat, lo: nat, hi: nat)
    requires p > 0
    ensures lo * p <= v ==> lo <= v / p
    ensures v < hi * p ==> v / p < hi
  {
    NonNegative(v, p);
    var q := v / p;
    assert v == q * p + v % p;
    Gap(q, lo, p);
    Gap(q, hi, p);
  }

  /** One byte fewer. */
  lemma LeadingNext(v: nat, s: nat)
    ensures Leading(v, s) / 0x100 == Leading(v, s + 1)
  {
    hide Pow;
    SmallPowers();
    if s < 3 {
      BytesAdd(2 - s, 1);
      assert v * (Bytes(2 - s) * 0x100) == (v * Bytes(2 - s)) * 0x100;
      QuotientOf(v * Bytes(2 - s), 0, 0x100);
    } else if s == 3 {
      assert v * 1 == v;
    } else {
      BytesAdd(s - 3, 1);
      DivDiv(v, Bytes(s - 3), 0x100);
    }
  }

  lemma DivDiv(v: nat, p: nat, q: nat)
    requires p > 0 && q > 0
    ensures p * q > 0 && (v / p) / q == v / (p * q)
  {
    ZeroProduct(p, q);
    NonNegative(v, p);
    var a, c := v / p, v % p;
    NonNegative(a, q);
    Nested(v, p, q, a, c, a / q, a % q);
  }

  lemma Nested(v: nat, p: nat, q: nat, a: nat, c: nat, b: nat, d: nat)
    requires v == a * p + c && c < p && a == b * q + d && d < q && p * q > 0
    ensures b == v / (p * q)
  {
    SplitProduct(b, q, d, p);
    Below(d, q, p);
    QuotientOf(b, d * p + c, p * q);
  }

  /** The writer's result: the size with room for the sign, and the leading bytes. */
  lemma CompactIs(v: nat, negative: bool)
    ensures Compact(v, negative) == Pack(Leading(v, Size(v)), Size(v), negative)
    ensures Leading(v, Size(v)) < 0x80_0000
    ensures Size(v) > 3 ==> Leading(v, Size(v)) >= 0x8000
  {
    hide Pow, BitLen, Leading, Pack;
    BitsZero(v);
    SmallPowers();
    if v == 0 {
      LeadingZero();
    } else {
      var n := BitLen(v);
      var s := (n + 7) / 8;
      var e := n + 23 - 8 * s;
      LeadingBounds(v, s, e);
      LeadingNext(v, s);
      PowExpMono(2, 16, e);
      if n % 8 == 0 {
        assert Size(v) == s + 1 && e == 23;
      } else {
        assert Size(v) == s;
        PowExpMono(2, e + 1, 23);
        PowExpMono(2, 15, 16);
      }
    }
  }

  lemma LeadingZero()
    ensures Leading(0, 0) == 0 && BitLen(0) == 0
  {
    hide Pow;
    NoBits();
    assert 0 * Bytes(3) == 0;
  }

  lemma Unpack(m: nat, s: nat, negative: bool)
    requires m < 0x80_0000
    ensures var c := Pack(m, s, negative);
      && Mantissa(c) == m && Exponent(c) == s && (Signed(c) <==> negative && m != 0)
      && (s < 0x100 ==> c < BASE)
  {
  }

  // ----- what survives -----

  /** A number with everything after its leading bytes cleared. */
  function Rounded(v: nat): nat
  {
    var s := Size(v);
    if s <= 3 then v else Shr(v, 8 * (s - 3)) * Bytes(s - 3)
  }

  lemma SizeFits(v: nat)
    requires v < Top()
    ensures Size(v) <= 33
  {
    hide Pow, BitLen;
    if BitLen(v) > 256 { PowExpMono(2, 256, BitLen(v) - 1); }
  }

  lemma ReadBack(v: nat, negative: bool)
    ensures Exact(Compact(v, negative)) == Rounded(v)
    ensures Signed(Compact(v, negative)) <==> negative && v != 0
  {
    hide Pow, BitLen, Pack, Compact, Size;
    CompactIs(v, negative);
    var s := Size(v);
    var m := Leading(v, s);
    Unpack(m, s, negative);
    if s <= 3 {
      QuotientOf(v, 0, Bytes(3 - s));
      ZeroIff(v, Bytes(3 - s));
    }
    SizeOfZero(v);
  }

  lemma SizeOfZero(v: nat)
    ensures Size(v) > 0 <==> v > 0
  {
    BitsZero(v);
  }

  lemma RoundedAtMost(v: nat)
    ensures Rounded(v) <= v
    ensures Size(v) > 3 ==> v < Rounded(v) + Bytes(Size(v) - 3)
  {
    hide Pow, BitLen, Size;
    var s := Size(v);
    if s > 3 {
      var p := Bytes(s - 3);
      assert v == (v / p) * p + v % p;
    }
  }

  /** Rounding keeps the bit length and the leading bytes. */
  lemma RoundedSame(v: nat)
    ensures Size(Rounded(v)) == Size(v) && Leading(Rounded(v), Size(v)) == Leading(v, Size(v))
  {
    hide Pow, BitLen;
    var s := Size(v);
    if s > 3 {
      var n, j := BitLen(v), 8 * (s - 3);
      var p, q := Pow(2, j), Shr(v, j);
      BitsZero(v);
      RoundedAtMost(v);
      PowAdd(2, n - 1 - j, j);
      QuotientBounds(v, p, Pow(2, n - 1 - j), 0);
      MulMono(Pow(2, n - 1 - j), q, p, p);
      BitLenUnique(q * p, n);
      QuotientOf(q, 0, p);
      BitsZero(q * p);
    }
  }

  /** Writing a target and reading it back never overflows and never raises it; the result has the
      same compact form. */
  lemma CompactRoundTrip(v: nat, negative: bool)
    requires v < Top()
    ensures var c := Compact(v, negative);
      && c < BASE
      && Exact(c) <= v && Exact(c) < Top()
      && Compact(Exact(c), negative) == c
  {
    hide Pow, BitLen, Pack, Compact, Size, Rounded, Leading, Exact;
    CompactIs(v, negative);
    SizeFits(v);
    Unpack(Leading(v, Size(v)), Size(v), negative);
    ReadBack(v, negative);
    RoundedAtMost(v);
    RoundedSame(v);
    CompactIs(Rounded(v), negative);
  }

  /** Of all numbers that have a compact form, reading back gives the largest that is not above v. */
  lemma CompactIsLargest(v: nat, c: nat)
    requires Exact(c) <= v
    ensures Exact(c) <= Exact(Compact(v, false))
  {
    hide Pow, BitLen, Pack, Compact, Size, Exact;
    ReadBack(v, false);
    var k := Size(v);
    if k > 3 {
      var q := Shr(v, 8 * (k - 3));
      CompactIs(v, false);
      if Exponent(c) >= k { ExactMultiple(c, v, k); } else { ExactSmall(c, k, q); }
    }
  }

  lemma ExactMultiple(c: nat, v: nat, k: nat)
    requires 3 < k <= Exponent(c) && Exact(c) <= v
    ensures Exact(c) <= Shr(v, 8 * (k - 3)) * Bytes(k - 3)
  {
    hide Pow;
    var m, e, p := Mantissa(c), Exponent(c), Bytes(k - 3);
    BytesAdd(e - k, k - 3);
    var x := m * Bytes(e - k);
    assert m * (Bytes(e - k) * p) == x * p;
    QuotientBounds(v, p, x, 0);
    NonNegative(v, p);
    MulMono(x, v / p, p, p);
  }

  lemma ExactSmall(c: nat, k: nat, q: nat)
    requires 3 < k && Exponent(c) < k && q >= 0x8000
    ensures Exact(c) <= q * Bytes(k - 3)
  {
    hide Pow;
    SmallPowers();
    var m, e, p := Mantissa(c), Exponent(c), Bytes(k - 4);
    BytesAdd(k - 4, 1);
    MulMono(0x8000, q, p * 0x100, p * 0x100);
    MulMono(m, 0x80_0000, p, p);
    if e <= 3 {
      SmallStays(m, Bytes(3 - e));
      MulMono(m, m, 1, p);
    } else {
      BytesMono(e - 3, k - 4);
      MulMono(m, m, Bytes(e - 3), p);
    }
  }

  method GetCompact(x: BaseUint, fNegative: bool) returns (c: nat)
    requires x.Valid() && x.pn.Length == 8
    ensures c == Compact(x.Value(), fNegative) && c < BASE
  {
    hide Pow, BitLen, Num, Leading, Size, Shr, Bytes;
    var bits := x.Bits();
    var size: nat := (bits + 7) / 8;
    ghost var v := x.Value();
    var word: nat;
    ModulusTop(x);
    NumBound(x.pn[..]);
    WordFits(v);
    if size <= 3 {
      var low := x.GetLow64();
      LowSame(v, size, low);
      word := (low * Bytes(3 - size)) % (BASE * BASE) % BASE;
    } else {
      var bn := new BaseUint.Copy(x);
      bn.ShiftRight(8 * (size - 3));
      var low := bn.GetLow64();
      HighSame(v, size, low);
      word := low % BASE;
    }
    assert word == Leading(v, size);
    CompactIs(v, fNegative);
    if word / 0x80_0000 % 2 == 1 {
      word := word / 0x100;
      size := size + 1;
    }
    assert word < 0x80_0000;
    assert size < 256;
    c := word + size * 0x100_0000 + (if fNegative && word % 0x80_0000 != 0 then 0x80_0000 else 0);
  }

  /** The writer's word has at most 24 bits. */
  lemma WordFits(v: nat)
    requires v < Top()
    ensures var s := (BitLen(v) + 7) / 8;
      && s <= 32 && Leading(v, s) < 0x100_0000
      && (Leading(v, s) / 0x80_0000 % 2 == 1 ==> Leading(v, s) / 0x100 < 0x80_0000)
  {
    hide Pow, BitLen, Leading;
    BitsZero(v);
    if BitLen(v) > 256 { PowExpMono(2, 256, BitLen(v) - 1); }
    if v == 0 {
      LeadingZero();
    } else {
      var s := (BitLen(v) + 7) / 8;
      LeadingBounds(v, s, BitLen(v) + 23 - 8 * s);
      PowExpMono(2, BitLen(v) + 24 - 8 * s, 24);
      SmallPowers();
    }
  }

  lemma LowSame(v: nat, s: nat, low: nat)
    requires s == (BitLen(v) + 7) / 8 <= 3 && low == v % (BASE * BASE) && Leading(v, s) < 0x100_0000
    ensures (low * Bytes(3 - s)) % (BASE * BASE) % BASE == Leading(v, s)
  {
    hide Pow, BitLen;
    PowExpMono(2, BitLen(v), 24);
    SmallPowers();
    QuotientOf(0, v, BASE * BASE);
    QuotientOf(0, Leading(v, s), BASE * BASE);
  }

  lemma HighSame(v: nat, s: nat, low: nat)
    requires s > 3 && low == (v / Pow(2, 8 * (s - 3))) % (BASE * BASE) && Leading(v, s) < 0x100_0000
    ensures low == Leading(v, s) == low % BASE
  {
    hide Pow;
    QuotientOf(0, Leading(v, s), BASE * BASE);
  }

  // ----- work -----

  lemma ProofQuotient(t: nat, d: nat)
    requires 1 < d <= t
    ensures (t - d) / d + 1 == t / d && 0 < t / d < t
  {
    NonNegative(t - d, d);
    var q, r := (t - d) / d, (t - d) % d;
    assert t - d == q * d + r;
    assert (q + 1) * d + r == t by { Spread(q, 1, d); }
    QuotientOf(q + 1, r, d);
    MulMono(q + 1, q + 1, 2, d);
  }

  /** A target read from compact form never has all bits set, so adding one cannot wrap. */
  lemma TargetBelowTop(c: nat)
    requires 0 < Exact(c) < Top()
    ensures Exact(c) + 1 < Top()
  {
    hide Pow, Bytes, Top;
    var m, e := Mantissa(c), Exponent(c);
    SmallPowers();
    TopIs();
    if e <= 3 {
      SmallStays(m, Pow(2, 8 * (3 - e)));
      BytesMono(4, 32);
    } else {
      BytesAdd(e - 4, 1);
      BytesAdd(31, 1);
      assert m * (Bytes(e - 4) * 0x100) == (m * Bytes(e - 4)) * 0x100;
    }
  }

  /** The expected number of hashes for a block: 2^256 / (target + 1), rounded down; zero for a target
      that is zero, negative or too large. */
  method GetBlockProof(nBits: nat) returns (proof: BaseUint)
    requires nBits < BASE
    ensures proof.Valid() && proof.pn.Length == 8
    ensures proof.Value() ==
      if 0 < Exact(nBits) < Top() && !Signed(nBits) then Top() / (Exact(nBits) + 1) else 0
  {
    hide Pow, Num, Exact, Top, BaseUint.Modulus, Words;
    var target := new BaseUint(8);
    var fNegative, fOverflow := SetCompact(target, nBits);
    var zero := target.EqualTo(0);
    if fNegative || fOverflow || zero {
      proof := new BaseUint(8);
      return;
    }
    TargetBelowTop(nBits);
    proof := Work(target);
  }

  method Work(target: BaseUint) returns (proof: BaseUint)
    requires target.Valid() && target.pn.Length == 8 && 0 < target.Value() < Top() - 1
    ensures proof.Valid() && proof.pn.Length == 8 && proof.Value() == Top() / (target.Value() + 1)
  {
    hide Pow, Num, Top, BaseUint.Modulus, Words;
    ghost var v := target.Value();
    ProofSteps(Top(), v);
    var one := new BaseUint(8);
    one.Assign(1);
    var divisor := Sum(target, one);
    ModulusTop(divisor);
    proof := target.Not();
    ModulusTop(target);
    var ok := proof.Divide(divisor);
    assert ok;
    proof := Sum(proof, one);
    ModulusTop(proof);
  }

  lemma ProofSteps(t: nat, v: nat)
    requires 0 < v < t - 1
    ensures (v + 1) % t == v + 1
    ensures ((t - 1 - v) / (v + 1) + 1) % t == t / (v + 1)
  {
    ProofQuotient(t, v + 1);
    QuotientOf(0, v + 1, t);
    QuotientOf(0, t / (v + 1), t);
  }

  /** The binary operator: a copy is added to. */
  method Sum(a: BaseUint, b: BaseUint) returns (r: BaseUint)
    requires a.Valid() && b.Valid() && a.pn.Length == b.pn.Length
    ensures r.Valid() && fresh(r) && fresh(r.pn) && r.pn.Length == a.pn.Length
    ensures r.Value() == (a.Value() + b.Value()) % r.Modulus()
  {
    hide Num, Pow, BaseUint.Modulus;
    r := new BaseUint.Copy(a);
    r.Add(b);
  }
}
