/** Unsigned big integers of any number of 32-bit words, changed in place by their operators. */
module ArithUint {
  import opened Numbers
  import opened ArithWords

  class BaseUint {
    const pn: array<nat>

    ghost predicate Valid()
      reads this, pn
    {
      pn.Length > 0 && Words(pn[..])
    }

    ghost function Value(): nat
      reads this, pn
    {
      Num(pn[..])
    }

    /** One more than the largest value. */
    ghost function Modulus(): (m: nat)
    {
      Weight(pn.Length)
    }

    constructor (width: nat)
      requires width > 0
      ensures Valid() && fresh(pn) && pn.Length == width && Value() == 0
    {
      hide Num;
      pn := new nat[width](_ => 0);
      new;
      NumZero(pn[..]);
    }

    constructor Copy(b: BaseUint)
      requires b.Valid()
      ensures Valid() && fresh(pn) && pn.Length == b.pn.Length && pn[..] == b.pn[..]
    {
      pn := new nat[b.pn.Length](i requires 0 <= i < b.pn.Length reads b.pn => b.pn[i]);
      new;
      assert pn[..] == b.pn[..];
    }

    method Clear()
      requires Valid()
      modifies pn
      ensures Valid() && Value() == 0 && forall j :: 0 <= j < pn.Length ==> pn[j] == 0
    {
      hide Num;
      for i := 0 to pn.Length
        invariant forall j :: 0 <= j < i ==> pn[j] == 0
      {
        pn[i] := 0;
      }
      NumZero(pn[..]);
    }

    method Assign(b: nat)
      requires Valid() && pn.Length >= 2 && b < BASE * BASE
      modifies pn
      ensures Valid() && Value() == b
    {
      hide Num, Weight;
      Clear();
      ghost var d := pn[..];
      var lo: nat, hi: nat := b % BASE, b / BASE;
      ghost var e: seq<nat> := d[0 := lo];
      NumUpdate(d, 0, lo);
      NumUpdate(e, 1, hi);
      WeightNext(0);
      pn[0] := lo;
      pn[1] := hi;
      assert pn[..] == e[1 := hi];
    }

    method EqualTo(b: nat) returns (r: bool)
      requires Valid() && pn.Length >= 2 && b < BASE * BASE
      ensures r <==> Value() == b
    {
      hide Num, Weight;
      ghost var d := pn[..];
      LowHigh(d);
      var i := pn.Length - 1;
      while i >= 2
        invariant 1 <= i < pn.Length && forall j :: i < j < pn.Length ==> pn[j] == 0
      {
        if pn[i] != 0 { Large(d, i); return false; }
        i := i - 1;
      }
      NumTop(d, 2);
      return pn[1] == b / BASE && pn[0] == b % BASE;
    }

    method GetLow64() returns (r: nat)
      requires Valid() && pn.Length >= 2
      ensures r == Value() % (BASE * BASE) && r < BASE * BASE
    {
      hide Num, Weight, Or, Pow, High;
      ghost var d := pn[..];
      LowHigh(d);
      BaseIs();
      OrAdds(pn[1], pn[0], 32);
      r := Or(pn[0], pn[1] * BASE);
      Reduced(r, High(d, 2), BASE * BASE, Num(d));
    }

    method ShiftLeft(shift: nat)
      requires Valid()
      modifies pn
      ensures Valid() && Value() == (old(Value()) * Pow(2, shift)) % Modulus()
    {
      hide Num, Weight, Pow, Or, Shr, Shl, LeftWords, LeftLost, LeftRoom, Words, At, Share, Times;
      var a, n := pn[..], pn.Length;
      Clear();
      var k, s := shift / 32, shift % 32;
      ghost var over: nat := 0;
      NoWords(a);
      StartLeft(pn[..], k, s);
      NothingAt(n);
      NothingTimes(shift);
      for i := 0 to n
        invariant Words(pn[..]) && LeftRoom(pn[..], i + k, s)
        invariant Num(pn[..]) + At(over, n) == Times(Num(a[..i]), shift)
      {
        ghost var d := pn[..];
        WordAt(a, i);
        LeftStep(d, a[i], i, k, s);
        if i + k + 1 < n && s != 0 { pn[i + k + 1] := Or(pn[i + k + 1], Shr(a[i], 32 - s)); }
        if i + k < n { pn[i + k] := Or(pn[i + k], Shl(a[i], s)); }
        LeftWordsAre(d, a[i], i, k, s, pn[..]);
        ghost var lost := LeftLost(n, a[i], i, k, s);
        PrefixAt(a, i);
        LeftSum(Num(d), Num(pn[..]), over, lost, n, Num(a[..i]), a[i], i, shift);
        over := over + lost;
      }
      assert a[..n] == a;
      NumBound(pn[..]);
      LeftEnd(Num(pn[..]), over, n, Num(a), shift);
    }

    method ShiftRight(shift: nat)
      requires Valid()
      modifies pn
      ensures Valid() && Value() == old(Value()) / Pow(2, shift)
    {
      hide Num, Weight, Pow, Or, Shr, Shl, RightWords, RightLost, RightRoom, Words;
      var a, n := pn[..], pn.Length;
      Clear();
      var k, s := shift / 32, shift % 32;
      ghost var rest: nat := 0;
      NoWords(a);
      StartRight(pn[..], k, s);
      ShiftWeight(k, s);
      RestStart(k, s);
      for i := 0 to n
        invariant Words(pn[..]) && RightRoom(pn[..], i, k, s)
        invariant Num(pn[..]) * Pow(2, shift) + rest == Num(a[..i])
        invariant RestBelow(rest, i, k, s)
      {
        ghost var d := pn[..];
        WordAt(a, i);
        RightStep(d, a[i], i, k, s);
        RestStep(rest, a[i], i, k, s);
        if i - k - 1 >= 0 && s != 0 { pn[i - k - 1] := Or(pn[i - k - 1], Shl(a[i], 32 - s)); }
        if i - k >= 0 { pn[i - k] := Or(pn[i - k], Shr(a[i], s)); }
        RightWordsAre(d, a[i], i, k, s, pn[..]);
        NumPrefix(a, i);
        rest := rest + RightLost(a[i], i, k, s);
      }
      assert a[..n] == a;
      RestEnd(rest, n, k, s);
      QuotientOf(Num(pn[..]), rest, Pow(2, shift));
    }

    method Add(b: BaseUint)
      requires Valid() && b.Valid() && b.pn.Length == pn.Length
      modifies pn
      ensures Valid() && Value() == (old(Value()) + old(b.Value())) % Modulus()
    {
      hide Num, Weight;
      ghost var a, y, n := pn[..], b.pn[..], pn.Length;
      var carry: nat := 0;
      NoWords(a);
      NoWords(y);
      for i := 0 to pn.Length
        invariant Words(pn[..]) && carry <= 1
        invariant forall j :: i <= j < n ==> pn[j] == a[j] && b.pn[j] == y[j]
        invariant Num(pn[..]) + carry * Weight(i) == Num(a) + Num(y[..i])
      {
        var sum: nat := carry + pn[i] + b.pn[i];
        var lo: nat := sum % BASE;
        CarryStep(pn[..], i, sum);
        NumPrefix(y, i);
        AddTerms(carry, a[i], y[i], Weight(i));
        ghost var d := pn[..];
        pn[i] := lo;
        assert pn[..] == d[i := lo];
        carry := sum / BASE;
      }
      assert y[..n] == y;
      NumBound(pn[..]);
      Reduced(Num(pn[..]), carry, Weight(n), Num(a) + Num(y));
    }

    method Increment()
      requires Valid()
      modifies pn
      ensures Valid() && Value() == (old(Value()) + 1) % Modulus()
    {
      hide Num, Weight;
      ghost var a, n := pn[..], pn.Length;
      var i := 0;
      WeightNext(0);
      CarryStep(pn[..], 0, pn[0] + 1);
      AddTerms(a[0], 1, 0, Weight(0));
      var lo: nat := (pn[0] + 1) % BASE;
      pn[0] := lo;
      assert pn[..] == a[0 := lo];
      while pn[i] == 0 && i < pn.Length - 1
        invariant 0 <= i < pn.Length && Words(pn[..])
        invariant forall j :: i < j < n ==> pn[j] == a[j]
        invariant Num(pn[..]) + (if pn[i] == 0 then Weight(i + 1) else 0) == Num(a) + 1
      {
        ghost var d := pn[..];
        i := i + 1;
        CarryStep(d, i, d[i] + 1);
        AddTerms(d[i], 1, 0, Weight(i));
        lo := (pn[i] + 1) % BASE;
        pn[i] := lo;
        assert pn[..] == d[i := lo];
      }
      NumBound(pn[..]);
      ghost var over := if pn[i] == 0 then 1 else 0;
      Reduced(Num(pn[..]), over, Weight(n), Num(a) + 1);
    }

    method Not() returns (ret: BaseUint)
      requires Valid()
      ensures ret.Valid() && fresh(ret) && fresh(ret.pn) && ret.pn.Length == pn.Length
      ensures ret.Value() == Modulus() - 1 - Value()
    {
      hide Num, Weight;
      ret := new BaseUint(pn.Length);
      for i := 0 to pn.Length
        invariant forall j :: 0 <= j < i ==> ret.pn[j] == BASE - 1 - pn[j]
      {
        ret.pn[i] := BASE - 1 - pn[i];
      }
      Complement(pn[..], ret.pn[..]);
    }

    method Negate() returns (ret: BaseUint)
      requires Valid()
      ensures ret.Valid() && fresh(ret) && fresh(ret.pn) && ret.pn.Length == pn.Length
      ensures ret.Value() == (Modulus() - Value()) % Modulus()
    {
      hide Num, Weight;
      ret := Not();
      ret.Increment();
    }

    method Subtract(b: BaseUint)
      requires Valid() && b.Valid() && b.pn.Length == pn.Length
      modifies pn
      ensures Valid() && Value() == (old(Value()) - old(b.Value())) % Modulus()
      ensures old(Value()) >= old(b.Value()) ==> Value() == old(Value()) - old(b.Value())
    {
      hide Num, Weight;
      ghost var x, y, t := Value(), b.Value(), Modulus();
      NumBound(pn[..]);
      NumBound(b.pn[..]);
      var minus := b.Negate();
      Add(minus);
      Difference(x, y, t);
      if x >= y { NoBorrow(x, y, t); }
    }

    method Compare(b: BaseUint) returns (r: int)
      requires Valid() && b.Valid() && b.pn.Length == pn.Length
      ensures r < 0 <==> Value() < b.Value()
      ensures r > 0 <==> Value() > b.Value()
    {
      hide Num, Weight;
      var i := pn.Length - 1;
      while i >= 0
        invariant -1 <= i < pn.Length
        invariant forall j :: i < j < pn.Length ==> pn[j] == b.pn[j]
      {
        if pn[i] < b.pn[i] { NumCompare(pn[..], b.pn[..], i); return -1; }
        if pn[i] > b.pn[i] { NumCompare(b.pn[..], pn[..], i); return 1; }
        i := i - 1;
      }
      assert pn[..] == b.pn[..];
      return 0;
    }

    method Bits() returns (r: nat)
      requires Valid()
      ensures r == BitLen(Value())
    {
      hide Num, Weight, Pow, BitLen;
      BaseIs();
      var pos := pn.Length - 1;
      while pos >= 0
        invariant -1 <= pos < pn.Length
        invariant forall j :: pos < j < pn.Length ==> pn[j] == 0
      {
        if pn[pos] != 0 {
          var bits := 31;
          while bits > 0
            invariant 0 <= bits <= 31 && pn[pos] < Pow(2, bits + 1)
          {
            TopBit(pn[pos], bits);
            if (pn[pos] / Pow(2, bits)) % 2 == 1 {
              BitLenWords(pn[..], pos, bits);
              return 32 * pos + bits + 1;
            }
            bits := bits - 1;
          }
          LastBit();
          BitLenWords(pn[..], pos, 0);
          return 32 * pos + 1;
        }
        pos := pos - 1;
      }
      NumZero(pn[..]);
      NoBits();
      return 0;
    }

    /** Sets one bit below which everything is zero, itself included. */
    method OrBit(shift: nat)
      requires Valid() && shift < 32 * pn.Length && LowClear(pn[..], shift + 1)
      modifies pn
      ensures Valid() && LowClear(pn[..], shift) && Value() == old(Value()) + Pow(2, shift)
    {
      hide Num, Pow, Or, Words, LowClear;
      ghost var q := pn[..];
      SetBit(q, shift);
      var i, bit := shift / 32, Pow(2, shift % 32);
      var word := Or(pn[i], bit);
      pn[i] := word;
      assert pn[..] == q[i := word];
    }

    /** Long division by shifted subtraction; dividing by zero is the error result and leaves zero behind. */
    method Divide(b: BaseUint) returns (ok: bool)
      requires Valid() && b.Valid() && b.pn.Length == pn.Length
      modifies pn
      ensures Valid() && ok == (old(b.Value()) != 0)
      ensures ok ==> Value() == old(Value()) / old(b.Value())
      ensures !ok ==> Value() == 0
    {
      hide Num, Weight, Pow, Or, Words, LowClear, BitLen, Divided, Times, Modulus;
      ghost var N, D, n := Value(), b.Value(), pn.Length;
      var div := new BaseUint.Copy(b);
      var num := new BaseUint.Copy(this);
      NumBound(pn[..]);
      Clear();
      AllClear(pn[..]);
      var numBits := num.Bits();
      var divBits := div.Bits();
      BitsZero(D);
      if divBits == 0 { return false; }
      if divBits > numBits { ShorterIsLess(N, D); return true; }
      var shift := numBits - divBits;
      Aligned(N, D, n);
      ModulusIs(div);
      div.ShiftLeft(shift);
      StillClearBelow(pn[..], shift + 1);
      while shift >= 0
        invariant -1 <= shift < 32 * n && Words(pn[..]) && LowClear(pn[..], shift + 1)
        invariant div.Valid() && num.Valid() && div.pn.Length == num.pn.Length == n
        invariant fresh(div.pn) && fresh(num.pn) && div.pn != num.pn
        invariant Divided(Num(pn[..]), num.Value(), N, D, shift + 1)
        invariant shift >= 0 ==> div.Value() == Times(D, shift)
      {
        ghost var q, u := pn[..], num.Value();
        var c := num.Compare(div);
        DividedStep(Num(q), u, N, D, shift);
        if c >= 0 {
          num.Subtract(div);
          OrBit(shift);
          assert num.Value() == u - Times(D, shift) && Num(pn[..]) == Num(q) + Pow(2, shift);
        } else {
          StillClear(q, shift);
        }
        ghost var q1, u1 := pn[..], num.pn[..];
        assert Divided(Num(q1), Num(u1), N, D, shift);
        div.ShiftRight(1);
        assert pn[..] == q1 && num.pn[..] == u1;
        HalfOf(D, shift);
        shift := shift - 1;
      }
      DividedEnd(Num(pn[..]), num.Value(), N, D);
      return true;
    }

    method MultiplyWord(b32: nat)
      requires Valid() && b32 < BASE
      modifies pn
      ensures Valid() && Value() == (old(Value()) * b32) % Modulus()
    {
      hide Num, Weight, Scaled;
      ghost var a, n := pn[..], pn.Length;
      var carry: nat := 0;
      ScaledStart(a, b32);
      for i := 0 to pn.Length
        invariant Words(pn[..]) && carry < BASE
        invariant forall j :: i <= j < n ==> pn[j] == a[j]
        invariant Scaled(pn[..], a, i, carry, b32)
      {
        DoubleWord(carry, 0, b32, pn[i]);
        var sum: nat := carry + b32 * pn[i];
        assert sum < BASE * BASE;
        var lo: nat := sum % BASE;
        ScaledStep(pn[..], a, i, carry, b32);
        ghost var d := pn[..];
        pn[i] := lo;
        assert pn[..] == d[i := lo];
        carry := sum / BASE;
      }
      NumBound(pn[..]);
      ScaledEnd(pn[..], a, carry, b32);
    }

    /** The inner loop of multiplication: adds x times b, j words up; what goes over the top is lost. */
    method AddRow(x: nat, j: nat, b: BaseUint) returns (ghost lost: nat)
      requires Valid() && b.Valid() && b.pn.Length == pn.Length && x < BASE && j < pn.Length
      requires b.pn == pn ==> forall k :: 0 <= k < pn.Length ==> pn[k] == 0
      modifies pn
      ensures Valid()
      ensures b.pn != pn ==> Value() + At(lost, pn.Length) == old(Value()) + Row(x, j, b.Value())
      ensures b.pn == pn ==> forall k :: 0 <= k < pn.Length ==> pn[k] == 0
    {
      hide Num, Weight, At, Row, High;
      ghost var before, y, n := Num(pn[..]), b.pn[..], pn.Length;
      var carry: nat := 0;
      RowStart(x, j, y);
      for i := 0 to pn.Length - j
        invariant Words(pn[..]) && carry < BASE
        invariant b.pn != pn ==> Num(pn[..]) + At(carry, i + j) == before + Row(x, j, Num(y[..i]))
        invariant b.pn == pn ==> carry == 0 && forall k :: 0 <= k < pn.Length ==> pn[k] == 0
      {
        ghost var d := pn[..];
        DoubleWord(carry, pn[i + j], x, b.pn[i]);
        var sum: nat := carry + pn[i + j] + x * b.pn[i];
        var lo: nat := sum % BASE;
        RowStep(d, before, x, j, y, i, carry);
        pn[i + j] := lo;
        assert pn[..] == d[i + j := lo];
        carry := sum / BASE;
      }
      RowEnd(x, j, y, carry);
      lost := carry + x * High(y, n - j);
    }

    /** Multiplication modulo the width. The operand is read while this number is being rewritten, so
        multiplying a number by itself in place gives zero. */
    method Multiply(b: BaseUint)
      requires Valid() && b.Valid() && b.pn.Length == pn.Length
      modifies pn
      ensures Valid()
      ensures b.pn != pn ==> Value() == (old(Value()) * old(b.Value())) % Modulus()
      ensures b.pn == pn ==> Value() == 0
    {
      hide Num, Weight, At, Row, Words;
      ghost var y, n := b.Value(), pn.Length;
      var a := pn[..];
      Clear();
      NoWords(a);
      NothingAt(n);
      ghost var over: nat := 0;
      for j := 0 to pn.Length
        invariant Valid() && b.Valid()
        invariant b.pn != pn ==> b.Value() == y && Num(pn[..]) + At(over, n) == Num(a[..j]) * y
        invariant b.pn == pn ==> forall k :: 0 <= k < pn.Length ==> pn[k] == 0
      {
        WordAt(a, j);
        PrefixAt(a, j);
        ghost var before := Num(pn[..]);
        ghost var lost := AddRow(a[j], j, b);
        if b.pn != pn { RowSum(before, Num(pn[..]), over, lost, n, Num(a[..j]), a[j], j, y); }
        over := over + lost;
      }
      assert a[..n] == a;
      NumBound(pn[..]);
      if b.pn != pn { ProductEnd(Num(pn[..]), over, n, Num(a) * y); } else { NumZero(pn[..]); }
    }
  }

  /** A word of one factor, in its place, times the other factor. */
  function Row(x: nat, j: nat, y: nat): nat { At(x, j) * y }

  lemma RowStart(x: nat, j: nat, y: seq<nat>)
    ensures Row(x, j, Num(y[..0])) == 0 && At(0, j) == 0
  {
    hide Weight;
    NoWords(y);
  }

  lemma RowStep(d: seq<nat>, before: nat, x: nat, j: nat, y: seq<nat>, i: nat, carry: nat)
    requires i < |y| && i + j < |d|
    ensures var sum := carry + d[i + j] + x * y[i];
      Num(d) + At(carry, i + j) == before + Row(x, j, Num(y[..i]))
      ==> Num(d[i + j := sum % BASE]) + At(sum / BASE, i + 1 + j) == before + Row(x, j, Num(y[..i + 1]))
  {
    hide Num, Weight;
    var sum: nat := carry + d[i + j] + x * y[i];
    CarryStep(d, i + j, sum);
    NumPrefix(y, i);
    WordTerm(carry, d[i + j], x, y[i], Weight(i + j));
    WeightAdd(i, j);
    RowTerm(x, Weight(j), Num(y[..i]), y[i], Weight(i));
  }

  lemma RowTerm(x: nat, wj: nat, v: nat, y: nat, wi: nat)
    ensures x * wj * (v + y * wi) == x * wj * v + (x * y) * (wi * wj)
  {
    assert x * wj * (v + y * wi) == x * wj * v + x * wj * (y * wi);
    Shuffle(x, wj, wi, y);
    assert y * wi == wi * y && wj * wi == wi * wj;
  }

  lemma RowEnd(x: nat, j: nat, y: seq<nat>, carry: nat)
    requires j < |y|
    ensures At(carry + x * High(y, |y| - j), |y|) + Row(x, j, Num(y[..|y| - j])) == At(carry, |y|) + Row(x, j, Num(y))
  {
    hide Num, Weight, High;
    var n := |y|;
    var h := High(y, n - j);
    WeightAdd(n - j, j);
    Spread(carry, x * h, Weight(n));
    RowTerm(x, Weight(j), Num(y[..n - j]), h, Weight(n - j));
  }

  lemma RowSum(v: nat, v1: nat, over: nat, lost: nat, n: nat, z: nat, w: nat, j: nat, y: nat)
    requires v + At(over, n) == z * y && v1 + At(lost, n) == v + Row(w, j, y)
    ensures v1 + At(over + lost, n) == (z + At(w, j)) * y
  {
    hide Weight;
    Spread(over, lost, Weight(n));
    Spread(z, At(w, j), y);
  }

  lemma ProductEnd(v: nat, over: nat, n: nat, x: nat)
    requires v + At(over, n) == x && v < Weight(n)
    ensures v == x % Weight(n)
  {
    hide Weight;
    Reduced(v, over, Weight(n), x);
  }

  lemma DoubleWord(carry: nat, x: nat, a: nat, b: nat)
    requires carry < BASE && x < BASE && a < BASE && b < BASE
    ensures 0 <= carry + x + a * b < BASE * BASE && (carry + x + a * b) / BASE < BASE
  {
    var t := a * b;
    NonNegativeProduct(a, b);
    MulMono(a, BASE - 1, b, BASE - 1);
    assert t <= (BASE - 1) * (BASE - 1);
    WordQuotient(carry + x + t);
  }

  lemma WordQuotient(n: nat)
    ensures n < BASE * BASE ==> n / BASE < BASE
  {
  }

  /** The first i words of the product with one word, with the carry into the next. */
  ghost predicate Scaled(d: seq<nat>, a: seq<nat>, i: nat, carry: nat, b: nat)
    requires i <= |a|
  {
    Num(d) + carry * Weight(i) + Num(a[..i]) == Num(a) + Num(a[..i]) * b
  }

  lemma ScaledStart(a: seq<nat>, b: nat)
    ensures Scaled(a, a, 0, 0, b)
  {
  }

  lemma ScaledStep(d: seq<nat>, a: seq<nat>, i: nat, carry: nat, b: nat)
    requires i < |a| == |d| && d[i] == a[i] && Scaled(d, a, i, carry, b)
    ensures var sum := carry + b * d[i]; Scaled(d[i := sum % BASE], a, i + 1, sum / BASE, b)
  {
    hide Num, Weight;
    var sum: nat := carry + b * d[i];
    CarryStep(d, i, sum);
    NumPrefix(a, i);
    Spread(Num(a[..i]), a[i] * Weight(i), b);
    Spread(carry, b * a[i], Weight(i));
    assert a[i] * Weight(i) * b == (b * a[i]) * Weight(i);
  }

  lemma ScaledEnd(d: seq<nat>, a: seq<nat>, carry: nat, b: nat)
    requires |d| == |a| && Scaled(d, a, |a|, carry, b) && Num(d) < Weight(|a|)
    ensures Num(d) == (Num(a) * b) % Weight(|a|)
  {
    hide Num, Weight;
    assert a[..|a|] == a;
    Cancel(Num(d), carry, Weight(|a|), Num(a), b);
  }

  lemma Cancel(v: nat, c: nat, w: nat, x: nat, b: nat)
    requires v < w && v + c * w + x == x + x * b
    ensures v == (x * b) % w
  {
    Reduced(v, c, w, x * b);
  }

  lemma WordTerm(carry: nat, x: nat, a: nat, b: nat, w: nat)
    ensures (carry + x + a * b) * w == carry * w + x * w + (a * b) * w
  {
    AddTerms(carry, x, a * b, w);
  }

  lemma AllClear(d: seq<nat>)
    requires forall j :: 0 <= j < |d| ==> d[j] == 0
    ensures Words(d) && LowClear(d, 32 * |d|)
  {
  }

  lemma {:induction false} StillClearBelow(d: seq<nat>, t: nat)
    requires t <= 32 * |d| && LowClear(d, 32 * |d|)
    ensures LowClear(d, t)
    decreases 32 * |d| - t
  {
    hide LowClear;
    if t < 32 * |d| {
      StillClearBelow(d, t + 1);
      StillClear(d, t);
    }
  }

  lemma BitsZero(v: nat)
    ensures BitLen(v) == 0 <==> v == 0
  {
    LastBit();
  }

  lemma ShorterIsLess(x: nat, y: nat)
    requires BitLen(x) < BitLen(y)
    ensures x / y == 0 && x < y
  {
    hide BitLen, Pow;
    PowExpMono(2, BitLen(x), BitLen(y) - 1);
    QuotientOf(0, x, y);
  }

  /** Shifting the divisor up to the numerator's length loses nothing, and twice it exceeds the numerator. */
  lemma Aligned(x: nat, y: nat, n: nat)
    requires 0 < BitLen(y) <= BitLen(x) && x < Weight(n)
    ensures var shift := BitLen(x) - BitLen(y);
      && shift < 32 * n && shift + 1 <= 32 * n
      && (y * Pow(2, shift)) % Weight(n) == Times(y, shift)
      && Divided(0, x, x, y, shift + 1)
  {
    hide BitLen, Pow;
    var p, q := BitLen(x), BitLen(y);
    var shift := p - q;
    if p > 32 * n { PowExpMono(2, 32 * n, p - 1); }
    PowAdd(2, q, shift);
    Below(y, Pow(2, q), Pow(2, shift));
    PowExpMono(2, p, 32 * n);
    QuotientOf(0, y * Pow(2, shift), Weight(n));
    PowAdd(2, q - 1, shift + 1);
    MulMono(Pow(2, q - 1), y, Pow(2, shift + 1), Pow(2, shift + 1));
  }

  lemma ModulusIs(x: BaseUint)
    ensures x.Modulus() == Weight(x.pn.Length)
  {
  }

  lemma NoBorrow(u: nat, v: nat, t: nat)
    requires v <= u < t
    ensures (u - v) % t == u - v
  {
    QuotientOf(0, u - v, t);
  }

  function Times(d: nat, shift: nat): nat { d * Pow(2, shift) }

  /** What long division keeps: quotient so far, remainder so far, and how far there is to go. */
  ghost predicate Divided(q: nat, rest: nat, n: nat, d: nat, t: nat)
  {
    q * d + rest == n && rest < Times(d, t)
  }

  lemma DividedStep(q: nat, rest: nat, n: nat, d: nat, shift: nat)
    requires Divided(q, rest, n, d, shift + 1)
    ensures rest < Times(d, shift) ==> Divided(q, rest, n, d, shift)
    ensures rest >= Times(d, shift) ==> Divided(q + Pow(2, shift), rest - Times(d, shift), n, d, shift)
  {
    PowSucc(2, shift);
    var p := Pow(2, shift);
    assert d * (2 * p) == d * p + d * p;
    Spread(q, p, d);
    assert p * d == d * p;
  }

  lemma DividedEnd(q: nat, rest: nat, n: nat, d: nat)
    requires d > 0 && Divided(q, rest, n, d, 0)
    ensures q == n / d
  {
    LastBit();
    QuotientOf(q, rest, d);
  }

  lemma HalfOf(d: nat, shift: nat)
    ensures Pow(2, 1) == 2
    ensures shift > 0 ==> Times(d, shift) / 2 == Times(d, shift - 1)
  {
    LastBit();
    if shift > 0 { HalveDouble(d, Pow(2, shift - 1)); }
  }

  lemma LeftSum(v: nat, v1: nat, over: nat, lost: nat, n: nat, x: nat, w: nat, i: nat, shift: nat)
    requires v + At(over, n) == Times(x, shift) && v1 + At(lost, n) == v + Share(w, i, shift / 32, shift % 32)
    ensures v1 + At(over + lost, n) == Times(x + At(w, i), shift)
  {
    hide Pow, Weight;
    Spread(over, lost, Weight(n));
    Spread(x, w * Weight(i), Pow(2, shift));
  }

  lemma LeftEnd(v: nat, over: nat, n: nat, x: nat, shift: nat)
    requires v + At(over, n) == Times(x, shift) && v < Weight(n)
    ensures v == (x * Pow(2, shift)) % Weight(n)
  {
    hide Pow, Weight;
    Reduced(v, over, Weight(n), x * Pow(2, shift));
  }

  lemma PrefixAt(a: seq<nat>, i: nat)
    requires i < |a|
    ensures Num(a[..i + 1]) == Num(a[..i]) + At(a[i], i)
  {
    hide Num, Weight;
    NumPrefix(a, i);
  }

  lemma NothingTimes(shift: nat)
    ensures Times(0, shift) == 0
  {
  }

  lemma LowHigh(d: seq<nat>)
    requires |d| >= 2
    ensures Num(d[..2]) == d[0] + d[1] * BASE
    ensures Weight(2) == BASE * BASE
  {
    hide Weight;
    NumPrefix(d, 0);
    NumPrefix(d, 1);
    NoWords(d);
    WeightNext(0);
    WeightNext(1);
  }

  /** A word above the second makes the number too large for two words. */
  lemma Large(d: seq<nat>, i: nat)
    requires 2 <= i < |d| && d[i] != 0
    ensures Num(d) >= BASE * BASE
  {
    hide Num, Weight, High;
    LowHigh(d);
    var h := High(d, i);
    var g := High(d[..i + 1], i);
    assert d[..i + 1][..i] == d[..i];
    var k := High(d, i + 1);
    NumPrefix(d, i);
    MulMono(1, d[i], Weight(i), Weight(i));
    WeightMono(2, i);
    assert k * Weight(i + 1) >= 0;
  }

  lemma WeightMono(i: nat, j: nat)
    requires i <= j
    ensures Weight(i) <= Weight(j)
  {
    PowExpMono(2, 32 * i, 32 * j);
  }

  lemma NoWords(a: seq<nat>)
    ensures Num(a[..0]) == 0
  {
  }

  lemma WordAt(a: seq<nat>, i: nat)
    requires i < |a| && Words(a)
    ensures a[i] < BASE
  {
  }

  lemma StartLeft(d: seq<nat>, k: nat, s: nat)
    requires forall j :: 0 <= j < |d| ==> d[j] == 0
    ensures LeftRoom(d, k, s) && Words(d)
  {
  }

  lemma StartRight(d: seq<nat>, k: nat, s: nat)
    requires s < 32 && forall j :: 0 <= j < |d| ==> d[j] == 0
    ensures RightRoom(d, 0, k, s) && Words(d)
  {
  }

  function Joined(x: nat, here: bool, y: nat, next: bool, z: nat): nat
  {
    if here then Or(x, y) else if next then Or(x, z) else x
  }

  lemma LeftWordsAre(d: seq<nat>, w: nat, i: nat, k: nat, s: nat, r: seq<nat>)
    requires s < 32 && |r| == |d|
    requires forall j :: 0 <= j < |d| ==> r[j] == Joined(d[j], j == i + k, Shl(w, s), j ==
        i + k + 1 && s != 0, Shr(w, 32 - s))
    ensures r == LeftWords(d, w, i, k, s)
  {
    hide Or, Shl, Shr;
  }

  lemma RightWordsAre(d: seq<nat>, w: nat, i: nat, k: nat, s: nat, r: seq<nat>)
    requires s < 32 && i < |d| && |r| == |d|
    requires forall j :: 0 <= j < |d| ==> r[j] == Joined(d[j], j == i - k, Shr(w, s), j ==
        i - k - 1 && s != 0, Shl(w, 32 - s))
    ensures r == RightWords(d, w, i, k, s)
  {
    hide Or, Shl, Shr;
  }

  /** The bits below the point stay below one unit. */
  ghost predicate RestBelow(rest: nat, i: nat, k: nat, s: nat)
  {
    if i <= k then rest < Weight(i) else rest < Pow(2, 32 * k + s)
  }

  lemma RestStart(k: nat, s: nat)
    ensures RestBelow(0, 0, k, s)
  {
  }

  lemma RestStep(rest: nat, w: nat, i: nat, k: nat, s: nat)
    requires RestBelow(rest, i, k, s) && w < BASE
    ensures RestBelow(rest + RightLost(w, i, k, s), i + 1, k, s)
  {
    hide Pow, Weight;
    if i < k {
      WeightNext(i);
      TopWord(rest, w, Weight(i));
    } else if i == k {
      ShiftWeight(k, s);
      var p, r := Pow(2, s), w % Pow(2, s);
      Below(r, p, Weight(k));
      assert p * Weight(k) == Weight(k) * p;
    }
  }

  lemma RestEnd(rest: nat, n: nat, k: nat, s: nat)
    requires RestBelow(rest, n, k, s)
    ensures rest < Pow(2, 32 * k + s)
  {
    hide Pow;
    if n <= k { PowExpMono(2, 32 * n, 32 * k + s); }
  }

  lemma AddTerms(a: nat, b: nat, c: nat, w: nat)
    ensures (a + b + c) * w == a * w + b * w + c * w
  {
  }

  lemma Difference(x: nat, y: nat, t: nat)
    requires x < t && y < t
    ensures (x + (t - y) % t) % t == (x - y) % t
  {
    if y == 0 {
      QuotientOf(1, 0, t);
    } else {
      QuotientOf(0, t - y, t);
      if x >= y {
        QuotientOf(1, x - y, t);
        QuotientOf(0, x - y, t);
      } else {
        Borrow(x - y, t);
      }
    }
  }

  lemma Borrow(d: int, t: nat)
    requires 0 <= d + t < t
    ensures (d + t) % t == d % t
  {
    QuotientOf(0, d + t, t);
    var q := d / t;
    assert d == q * t + d % t;
    NegativeQuotient(q, t, d % t, d);
  }

  lemma NegativeQuotient(q: int, t: nat, r: nat, d: int)
    requires 0 <= d + t < t && d == q * t + r && r < t
    ensures q == -1
  {
    assert q >= 0 ==> q * t >= 0;
    assert q <= -2 ==> (q + 2) * t <= 0;
  }

  lemma LastBit()
    ensures Pow(2, 0) == 1 && Pow(2, 1) == 2
  {
    PowFirst(2);
  }

  lemma NoBits()
    ensures BitLen(0) == 0
  {
  }
}
