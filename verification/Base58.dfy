/** Base58: byte strings as text without look-alike characters. */
module Base58 {
  import opened Numbers

  // ----- positional notation -----

  predicate Digits(d: seq<nat>, base: nat) { forall k :: 0 <= k < |d| ==> d[k] < base }

  /** The number written by digits, most significant first. */
  function Val(d: seq<nat>, base: nat): nat
  {
    if d == [] then 0 else Val(d[..|d| - 1], base) * base + d[|d| - 1]
  }

  predicate Canonical(d: seq<nat>, base: nat) { Digits(d, base) && (d == [] || d[0] != 0) }

  /** A number's digits, without leading zeros. */
  function ToDigits(n: nat, base: nat): (d: seq<nat>)
    requires base > 1
    ensures Canonical(d, base) && Val(d, base) == n
    ensures d == [] <==> n == 0
    decreases n
  {
    if n == 0 then [] else
      var q, r := n / base, n % base;
      DivSmaller(n, base);
      var front := ToDigits(q, base);
      AppendVal(front, r, base);
      front + [r]
  }

  lemma AppendVal(front: seq<nat>, r: nat, base: nat)
    ensures Val(front + [r], base) == Val(front, base) * base + r
  {
    assert (front + [r])[..|front|] == front;
  }

  /** One digit more. */
  lemma NextDigits(q: nat, r: nat, base: nat)
    requires base > 1 && r < base && (q != 0 || r != 0)
    ensures ToDigits(q * base + r, base) == ToDigits(q, base) + [r]
  {
    var n := q * base + r;
    QuotientOf(q, r, base);
    ZeroProduct(q, base);
    NonNegativeProduct(q, base);
    assert n != 0;
  }

  /** Digits without leading zeros are determined by their number. */
  lemma {:induction false} DigitsUnique(d: seq<nat>, base: nat)
    requires base > 1 && Canonical(d, base)
    ensures ToDigits(Val(d, base), base) == d
    decreases |d|
  {
    if d != [] {
      var front, last := d[..|d| - 1], d[|d| - 1];
      assert Canonical(front, base);
      DigitsUnique(front, base);
      NextDigits(Val(front, base), last, base);
      assert d == front + [last];
    }
  }

  /** Leading zeros do not count. */
  function Strip(d: seq<nat>): (r: seq<nat>)
    ensures r == [] || r[0] != 0
    ensures |r| <= |d| && d[|d| - |r|..] == r && forall k :: 0 <= k < |d| - |r| ==> d[k] == 0
  {
    if d == [] || d[0] != 0 then d else Strip(d[1..])
  }

  function Zeros(n: nat): (r: seq<nat>)
    ensures |r| == n && forall k :: 0 <= k < n ==> r[k] == 0
  {
    seq(n, _ => 0)
  }

  lemma {:induction false} StripVal(d: seq<nat>, base: nat)
    ensures Val(Strip(d), base) == Val(d, base)
    decreases |d|
  {
    if d != [] && d[0] == 0 {
      StripVal(d[1..], base);
      DropZero(d, base);
    }
  }

  lemma {:induction false} DropZero(d: seq<nat>, base: nat)
    requires d != [] && d[0] == 0
    ensures Val(d[1..], base) == Val(d, base)
    decreases |d|
  {
    if |d| > 1 {
      DropZero(d[..|d| - 1], base);
      assert d[1..][..|d| - 2] == d[..|d| - 1][1..];
    } else {
      assert d[1..] == [] && d[..0] == [];
      assert Val(d, base) == Val(d[..0], base) * base + d[0];
    }
  }

  lemma {:induction false} ValBound(d: seq<nat>, base: nat)
    requires Digits(d, base) && base > 0
    ensures Val(d, base) < Pow(base, |d|)
    decreases |d|
  {
    if d != [] {
      var k := |d| - 1;
      ValBound(d[..k], base);
      assert (Val(d[..k], base) + 1) * base <= Pow(base, k) * base;
      assert (Val(d[..k], base) + 1) * base == Val(d[..k], base) * base + base;
    }
  }

  /** Every canonical digit string is the stripped form of any padded version of it. */
  lemma StripToDigits(d: seq<nat>, base: nat)
    requires base > 1 && Digits(d, base)
    ensures Strip(d) == ToDigits(Val(d, base), base)
  {
    StripVal(d, base);
    DigitsUnique(Strip(d), base);
  }

  // ----- buffer sizes -----

  /** 256 to the 100th is at most 58 to the 138th, and 58 to the 1000th at most 256 to the 733rd. */
  lemma KeyBounds()
    ensures Pow(256, 100) <= Pow(58, 138)
    ensures Pow(58, 1000) <= Pow(256, 733)
  {
    hide Pow;
    Small();
    // 2^800 <= 58^138
    PowMul(2, 8, 100);
    PowMul(2, 76, 10);
    PowMul(58, 13, 10);
    PowMono(Pow(2, 76), Pow(58, 13), 10);
    PowAdd(58, 130, 8);
    PowAdd(2, 760, 46);
    MulMono(Pow(2, 760), Pow(58, 130), Pow(2, 46), Pow(58, 8));
    PowExpMono(2, 800, 806);
    // 58^1000 <= 2^5864
    PowMul(58, 22, 45);
    PowMul(2, 129, 45);
    PowMono(Pow(58, 22), Pow(2, 129), 45);
    PowAdd(58, 990, 10);
    PowAdd(2, 5805, 59);
    MulMono(Pow(58, 990), Pow(2, 5805), Pow(58, 10), Pow(2, 59));
    PowMul(2, 8, 733);
  }

  lemma Small()
    ensures Pow(2, 8) == 256
    ensures Pow(2, 76) <= Pow(58, 13) && Pow(2, 46) <= Pow(58, 8)
    ensures Pow(58, 22) <= Pow(2, 129) && Pow(58, 10) <= Pow(2, 59)
  {
    hide Pow;
    PowFirst(2);
    PowFirst(58);
    ValueStep(2, 1, 1, 2, 2);
    ValueStep(2, 2, 2, 4, 4);
    ValueStep(2, 4, 4, 16, 16);
    ValueStep(2, 8, 8, 256, 256);
    ValueStep(2, 16, 16, 65536, 65536);
    ValueStep(2, 32, 32, 4294967296, 4294967296);
    ValueStep(2, 64, 64, 18446744073709551616, 18446744073709551616);
    ValueStep(2, 64, 8, 18446744073709551616, 256);
    ValueStep(2, 72, 4, 4722366482869645213696, 16);
    ValueStep(2, 128, 1, 340282366920938463463374607431768211456, 2);
    ValueStep(2, 32, 8, 4294967296, 256);
    ValueStep(2, 40, 4, 1099511627776, 16);
    ValueStep(2, 44, 2, 17592186044416, 4);
    ValueStep(2, 32, 16, 4294967296, 65536);
    ValueStep(2, 48, 8, 281474976710656, 256);
    ValueStep(2, 56, 2, 72057594037927936, 4);
    ValueStep(2, 58, 1, 288230376151711744, 2);
    ValueStep(58, 1, 1, 58, 58);
    ValueStep(58, 2, 2, 3364, 3364);
    ValueStep(58, 4, 4, 11316496, 11316496);
    ValueStep(58, 8, 8, 128063081718016, 128063081718016);
    ValueStep(58, 8, 2, 128063081718016, 3364);
    ValueStep(58, 8, 4, 128063081718016, 11316496);
    ValueStep(58, 12, 1, 1449225352009601191936, 58);
    ValueStep(58, 16, 4, 16400152899115243850138976256, 11316496);
    ValueStep(58, 20, 2, 185592264682226060569122324245118976, 3364);
  }

  lemma ValueStep(b: nat, x: nat, y: nat, vx: nat, vy: nat)
    requires Pow(b, x) == vx && Pow(b, y) == vy
    ensures Pow(b, x + y) == vx * vy
  {
    PowAdd(b, x, y);
  }

  /** The encoder's buffer is large enough at every length. */
  lemma EncodeFits(n: nat)
    ensures Pow(256, n) < Pow(58, n * 138 / 100 + 1)
  {
    hide Pow;
    var k := n * 138 / 100 + 1;
    assert 100 * k > 138 * n;
    KeyBounds();
    // 256^(100 n) <= 58^(138 n) < 58^(100 k)
    PowMono(Pow(256, 100), Pow(58, 138), n);
    PowMul(256, 100, n);
    PowMul(58, 138, n);
    PowExpMono(58, 138 * n + 1, 100 * k);
    PowStep(58, 138 * n);
    PowMul(256, n, 100);
    PowMul(58, k, 100);
    assert n * 100 == 100 * n && k * 100 == 100 * k;
    RootMono(Pow(256, n), Pow(58, k), 100);
  }

  /** The decoder's buffer is large enough at every length. */
  lemma DecodeFits(n: nat)
    ensures Pow(58, n) < Pow(256, n * 733 / 1000 + 1)
  {
    hide Pow;
    var k := n * 733 / 1000 + 1;
    assert 1000 * k > 733 * n;
    KeyBounds();
    PowMono(Pow(58, 1000), Pow(256, 733), n);
    PowMul(58, 1000, n);
    PowMul(256, 733, n);
    PowExpMono(256, 733 * n + 1, 1000 * k);
    PowStep(256, 733 * n);
    PowMul(58, n, 1000);
    PowMul(256, k, 1000);
    assert n * 1000 == 1000 * n && k * 1000 == 1000 * k;
    RootMono(Pow(58, n), Pow(256, k), 1000);
  }

  // ----- one pass over the digit buffer -----

  lemma {:induction false} PrependVal(x: nat, d: seq<nat>, base: nat)
    ensures Val([x] + d, base) == x * Pow(base, |d|) + Val(d, base)
    decreases |d|
  {
    if d == [] {
      assert [x] + d == [x] && [x][..0] == [];
      assert Val([x], base) == Val([], base) * base + x;
    } else {
      var k := |d| - 1;
      PrependVal(x, d[..k], base);
      assert ([x] + d)[..k + 1] == [x] + d[..k];
      Distribute(x, Pow(base, k), Val(d[..k], base), base);
    }
  }

  lemma Distribute(x: nat, p: nat, v: nat, base: nat)
    ensures (x * p + v) * base == x * (base * p) + v * base
  {
    assert (x * p + v) * base == x * p * base + v * base;
    assert x * p * base == x * (base * p);
  }

  lemma MulAddStep(x: nat, carry: nat, low: nat, lowOld: nat, p: nat, base: nat, mul: nat, c0: nat)
    requires base > 1 && low + carry * p == mul * lowOld + c0
    ensures var t := carry + mul * x;
            && 0 <= t / base && 0 <= t % base < base
            && ((t % base) * p + low) + (t / base) * (base * p) == mul * (x * p + lowOld) + c0
  {
    var t := carry + mul * x;
    var q, r := t / base, t % base;
    assert t == q * base + r;
    Regroup(q, r, base, p);
    assert t * p == carry * p + (mul * x) * p;
    assert (mul * x) * p == mul * (x * p);
    assert mul * (x * p + lowOld) == mul * (x * p) + mul * lowOld;
  }

  lemma Regroup(q: int, r: int, base: nat, p: nat)
    ensures r * p + q * (base * p) == (q * base + r) * p
  {
    assert (q * base + r) * p == (q * base) * p + r * p;
    assert (q * base) * p == q * (base * p);
  }

  /** Multiplies the number in the buffer by mul and adds carry, from the last digit up; digits above
      the first length ones (from the end) are zero and are not visited unless the carry gets there. */
  method MulAdd(buf: array<nat>, base: nat, mul: nat, c0: nat, length: nat) returns (i: nat, carry: nat)
    requires base > 1 && length <= buf.Length && Digits(buf[..], base)
    requires forall k :: 0 <= k < buf.Length - length ==> buf[k] == 0
    requires mul * Val(buf[..], base) + c0 < Pow(base, buf.Length)
    modifies buf
    ensures carry == 0 && i <= buf.Length && Digits(buf[..], base)
    ensures Val(buf[..], base) == mul * old(Val(buf[..], base)) + c0
    ensures forall k :: 0 <= k < buf.Length - i ==> buf[k] == 0
  {
    hide Val, Pow;
    ghost var before, size := buf[..], buf.Length;
    i, carry := 0, c0;
    EmptyLow(before, base, mul, c0);
    while (carry != 0 || i < length) && i < buf.Length
      invariant 0 <= i <= buf.Length == size
      invariant Digits(buf[..], base)
      invariant forall k :: 0 <= k < size - i ==> buf[k] == before[k]
      invariant Val(buf[size - i..], base) + carry * Pow(base, i) == mul * Val(before[size - i..], base) + c0
      decreases buf.Length - i
    {
      ghost var low := buf[size - i..];
      var at := buf.Length - 1 - i;
      var x := buf[at];
      MulAddStep(x, carry, Val(low, base), Val(before[size - i..], base), Pow(base, i), base, mul, c0);
      carry := carry + mul * x;
      var digit := carry % base;
      buf[at] := digit;
      carry := carry / base;
      assert buf[at..] == [digit] + low;
      assert before[at..] == [x] + before[size - i..];
      PrependVal(digit, low, base);
      PrependVal(x, before[size - i..], base);
      PowSucc(base, i);
      i := i + 1;
    }
    Finish(before, buf[..], base, mul, c0, i, carry);
  }

  lemma EmptyLow(before: seq<nat>, base: nat, mul: nat, c0: nat)
    ensures before[|before|..] == [] && Val([], base) + c0 * Pow(base, 0) == mul * Val([], base) + c0
  {
  }

  /** When the pass stops, the visited digits are the whole result. */
  lemma Finish(before: seq<nat>, after: seq<nat>, base: nat, mul: nat, c0: nat, i: nat, carry: nat)
    requires |before| == |after| && i <= |after| && base > 1
    requires Val(after[|after| - i..], base) + carry * Pow(base, i) == mul * Val(before[|before| - i..], base) + c0
    requires carry == 0 || i == |after|
    requires forall k :: 0 <= k < |after| - i ==> after[k] == before[k]
    requires i < |after| ==> forall k :: 0 <= k < |after| - i ==> before[k] == 0
    requires mul * Val(before, base) + c0 < Pow(base, |after|)
    ensures carry == 0 && Val(after, base) == mul * Val(before, base) + c0
  {
    hide Val, Pow;
    SuffixVal(before, base, i);
    SuffixVal(after, base, i);
    if i == |after| {
      assert after[0..] == after && before[0..] == before;
      CarryZero(Val(after, base), carry, Pow(base, i), mul * Val(before, base) + c0);
    }
  }

  lemma CarryZero(v: nat, carry: nat, p: nat, t: nat)
    requires v + carry * p == t < p
    ensures carry == 0
  {
    assert carry > 0 ==> carry * p >= p;
  }

  lemma {:induction false} SuffixVal(d: seq<nat>, base: nat, i: nat)
    requires i <= |d|
    ensures (forall k :: 0 <= k < |d| - i ==> d[k] == 0) ==> Val(d[|d| - i..], base) == Val(d, base)
    decreases |d|
  {
    if i == |d| {
      assert d[0..] == d;
    } else if d[0] == 0 {
      SuffixVal(d[1..], base, i);
      DropZero(d, base);
      assert d[1..][|d| - 1 - i..] == d[|d| - i..];
    }
  }

  // ----- the alphabet -----

  /** "123456789ABCDEFGHJKLMNPQRSTUVWXYZabcdefghijkmnopqrstuvwxyz", by runs: no 0, I, O or l. */
  function CharOf(d: nat): char
    requires d < 58
  {
    if d < 9 then ('1' as int + d) as char
    else if d < 17 then ('A' as int + d - 9) as char
    else if d < 22 then ('J' as int + d - 17) as char
    else if d < 33 then ('P' as int + d - 22) as char
    else if d < 44 then ('a' as int + d - 33) as char
    else ('m' as int + d - 44) as char
  }

  /** The place of a character in the alphabet, or -1. */
  function DigitOf(c: char): (d: int)
    ensures -1 <= d < 58
  {
    if '1' <= c <= '9' then c as int - '1' as int
    else if 'A' <= c <= 'H' then c as int - 'A' as int + 9
    else if 'J' <= c <= 'N' then c as int - 'J' as int + 17
    else if 'P' <= c <= 'Z' then c as int - 'P' as int + 22
    else if 'a' <= c <= 'k' then c as int - 'a' as int + 33
    else if 'm' <= c <= 'z' then c as int - 'm' as int + 44
    else -1
  }

  lemma CharDigit(d: nat, c: char)
    ensures d < 58 ==> DigitOf(CharOf(d)) == d && !IsSpace(CharOf(d)) && CharOf(d) != '\0'
    ensures DigitOf(c) >= 0 ==> CharOf(DigitOf(c)) == c && !IsSpace(c) && c != '\0'
  {
  }

  predicate IsSpace(c: char) { c == ' ' || 9 <= c as int <= 13 }

  predicate Spaces(s: string, from: nat, end: nat)
    requires end <= |s|
  {
    forall k :: from <= k < end ==> IsSpace(s[k])
  }

  predicate IsBase58(s: string) { forall k :: 0 <= k < |s| ==> DigitOf(s[k]) >= 0 }

  function Chars(d: seq<nat>): (s: string)
    requires Digits(d, 58)
  {
    seq(|d|, k requires 0 <= k < |d| => CharOf(d[k]))
  }

  function Places(s: string): (d: seq<nat>)
    requires IsBase58(s)
    ensures Digits(d, 58) && |d| == |s| && forall k :: 0 <= k < |s| ==> d[k] == DigitOf(s[k])
  {
    seq(|s|, k requires 0 <= k < |s| => DigitOf(s[k]))
  }

  lemma CharsPlaces(d: seq<nat>)
    requires Digits(d, 58)
    ensures IsBase58(Chars(d)) && Places(Chars(d)) == d
  {
    forall k | 0 <= k < |d| ensures DigitOf(Chars(d)[k]) == d[k] { CharDigit(d[k], ' '); }
  }

  lemma PlacesChars(s: string)
    requires IsBase58(s)
    ensures Chars(Places(s)) == s
  {
    forall k | 0 <= k < |s| ensures Chars(Places(s))[k] == s[k] { CharDigit(0, s[k]); }
  }

  // ----- what the two conversions compute -----

  /** The same number in another base, with as many leading zeros as before. */
  function Recode(d: seq<nat>, from: nat, to: nat): (r: seq<nat>)
    requires to > 1
    ensures Digits(r, to)
  {
    Zeros(|d| - |Strip(d)|) + ToDigits(Val(d, from), to)
  }

  lemma {:induction false} StripPadded(z: nat, d: seq<nat>)
    requires d == [] || d[0] != 0
    ensures Strip(Zeros(z) + d) == d
    decreases z
  {
    var r := Zeros(z) + d;
    if z > 0 {
      assert r[1..] == Zeros(z - 1) + d;
      StripPadded(z - 1, d);
    } else {
      assert r == d;
    }
  }

  lemma RecodeBack(d: seq<nat>, from: nat, to: nat)
    requires from > 1 && to > 1 && Digits(d, from)
    ensures Recode(Recode(d, from, to), to, from) == d
  {
    hide ToDigits, Val, Strip;
    var z, t := |d| - |Strip(d)|, ToDigits(Val(d, from), to);
    var r := Zeros(z) + t;
    StripPadded(z, t);
    StripVal(r, to);
    StripToDigits(d, from);
    assert d == Zeros(z) + Strip(d);
  }

  function Encoded(v: seq<nat>): (s: string)
    requires Digits(v, 256)
  {
    Chars(Recode(v, 256, 58))
  }

  function Decoded(s: string): (v: seq<nat>)
    requires IsBase58(s)
    ensures Digits(v, 256)
  {
    Recode(Places(s), 58, 256)
  }

  /** Decoding gives back every byte string that was encoded. */
  lemma DecodeEncode(v: seq<nat>)
    requires Digits(v, 256)
    ensures IsBase58(Encoded(v)) && Decoded(Encoded(v)) == v
  {
    hide Recode, Chars, Places;
    CharsPlaces(Recode(v, 256, 58));
    RecodeBack(v, 256, 58);
  }

  /** Encoding gives back every base58 text that was decoded. */
  lemma EncodeDecode(s: string)
    requires IsBase58(s)
    ensures Encoded(Decoded(s)) == s
  {
    hide Recode, Chars, Places;
    RecodeBack(Places(s), 58, 256);
    PlacesChars(s);
  }

  /** The text up to its first NUL, as a C string sees it. */
  function CString(s: string): (r: string)
    ensures |r| <= |s| && r == s[..|r|] && (forall k :: 0 <= k < |r| ==> r[k] != '\0')
    ensures |r| < |s| ==> s[|r|] == '\0'
  {
    if s == "" || s[0] == '\0' then "" else [s[0]] + CString(s[1..])
  }

  function SkipSpaces(s: string): (r: string)
    ensures |r| <= |s| && Spaces(s, 0, |s| - |r|) && r == s[|s| - |r|..] && (r == "" || !IsSpace(r[0]))
  {
    if s == "" || !IsSpace(s[0]) then s else SkipSpaces(s[1..])
  }

  function DropSpaces(s: string): (r: string)
    ensures |r| <= |s| && Spaces(s, |r|, |s|) && r == s[..|r|] && (r == "" || !IsSpace(r[|r| - 1]))
  {
    if s == "" || !IsSpace(s[|s| - 1]) then s else DropSpaces(s[..|s| - 1])
  }

  /** The text the decoder works on: up to the first NUL, without surrounding white space. */
  function Trimmed(s: string): (r: string) { DropSpaces(SkipSpaces(CString(s))) }

  /** White space around an encoding does not matter, and an encoding is its own trimmed form. */
  lemma TrimmedPadded(lead: string, s: string, trail: string)
    requires Spaces(lead, 0, |lead|) && Spaces(trail, 0, |trail|) && IsBase58(s) && s != ""
    ensures Trimmed(lead + s + trail) == s
  {
    hide CString, SkipSpaces, DropSpaces, DigitOf, CharOf;
    var t := lead + s + trail;
    forall k | 0 <= k < |s| ensures !IsSpace(s[k]) && s[k] != '\0' { CharDigit(0, s[k]); }
    NoNul(lead, s, trail);
    assert t[|lead|] == s[0];
    SkipsTo(t, |lead|);
    assert t[|lead|..] == s + trail;
    var w := DropSpaces(s + trail);
    assert (s + trail)[|s| - 1] == s[|s| - 1];
    assert |w| == |s|;
  }

  lemma NoNul(lead: string, s: string, trail: string)
    requires forall k :: 0 <= k < |lead| ==> lead[k] != '\0'
    requires forall k :: 0 <= k < |s| ==> s[k] != '\0'
    requires forall k :: 0 <= k < |trail| ==> trail[k] != '\0'
    ensures CString(lead + s + trail) == lead + s + trail
  {
    var t := lead + s + trail;
    assert forall k :: 0 <= k < |t| ==> t[k] != '\0';
    assert |CString(t)| == |t|;
  }

  // ----- the two procedures -----

  /** From a digit buffer to its digits without leading zeros. */
  method Significant(buf: array<nat>, length: nat) returns (it: nat)
    requires length <= buf.Length && forall k :: 0 <= k < buf.Length - length ==> buf[k] == 0
    ensures it <= buf.Length && buf[it..] == Strip(buf[..])
  {
    it := buf.Length - length;
    while it != buf.Length && buf[it] == 0
      invariant it <= buf.Length && forall k :: 0 <= k < it ==> buf[k] == 0
    {
      it := it + 1;
    }
    StripAt(buf[..], it);
  }

  lemma StripAt(d: seq<nat>, it: nat)
    requires it <= |d| && (forall k :: 0 <= k < it ==> d[k] == 0) && (it == |d| || d[it] != 0)
    ensures Strip(d) == d[it..]
  {
    assert d == Zeros(it) + d[it..];
    StripPadded(it, d[it..]);
  }

  lemma RoomFor(d: seq<nat>, n: nat, from: nat, to: nat, size: nat)
    requires Digits(d, from) && from > 0 && |d| <= n && Pow(from, n) < Pow(to, size)
    ensures Val(d, from) < Pow(to, size)
  {
    hide Pow, Val;
    ValBound(d, from);
    PowExpMono(from, |d|, n);
  }

  lemma {:induction false} ZeroVal(d: seq<nat>, base: nat)
    requires forall k :: 0 <= k < |d| ==> d[k] == 0
    ensures Val(d, base) == 0
    decreases |d|
  {
    if d != [] { ZeroVal(d[..|d| - 1], base); }
  }

  /** The encoder's main loop: the bytes become one base 58 number. */
  method Accumulate(rest: seq<nat>, size: nat) returns (b58: array<nat>, length: nat)
    requires Digits(rest, 256) && Pow(256, |rest|) < Pow(58, size)
    ensures b58.Length == size && length <= size && Digits(b58[..], 58)
    ensures forall k :: 0 <= k < size - length ==> b58[k] == 0
    ensures Val(b58[..], 58) == Val(rest, 256)
  {
    hide Val, Pow;
    b58 := new nat[size](_ => 0);
    ZeroVal(b58[..], 58);
    ZeroVal(rest[..0], 256);
    var p: nat := 0;
    length := 0;
    while p != |rest|
      invariant 0 <= p <= |rest| && b58.Length == size && length <= size && Digits(b58[..], 58)
      invariant forall k :: 0 <= k < size - length ==> b58[k] == 0
      invariant Val(b58[..], 58) == Val(rest[..p], 256)
    {
      assert rest[..p + 1] == rest[..p] + [rest[p]];
      AppendVal(rest[..p], rest[p], 256);
      RoomFor(rest[..p + 1], |rest|, 256, 58, size);
      var i, carry := MulAdd(b58, 58, 256, rest[p], length);
      assert carry == 0;
      length := i;
      p := p + 1;
    }
    assert rest[..|rest|] == rest;
  }

  method EncodeBase58(v: seq<nat>) returns (s: string)
    requires Digits(v, 256)
    ensures s == Encoded(v)
  {
    hide Val, Pow, ToDigits, Strip, CharOf, Chars;
    var zeroes: nat := 0;
    while zeroes != |v| && v[zeroes] == 0
      invariant zeroes <= |v| && forall k :: 0 <= k < zeroes ==> v[k] == 0
    {
      zeroes := zeroes + 1;
    }
    StripAt(v, zeroes);
    var rest := v[zeroes..];
    var size := |rest| * 138 / 100 + 1;
    EncodeFits(|rest|);
    var b58, length := Accumulate(rest, size);
    var it := Significant(b58, length);
    StripToDigits(b58[..], 58);
    StripVal(v, 256);
    ghost var digits := ToDigits(Val(v, 256), 58);
    assert digits == b58[it..];
    s := Spell(seq(zeroes, _ => '1'), b58, it);
    ZeroChars(zeroes, digits);
  }

  /** Appends the characters of the digits from a place on. */
  method Spell(front: string, buf: array<nat>, from: nat) returns (s: string)
    requires from <= buf.Length && Digits(buf[from..], 58)
    ensures s == front + Chars(buf[from..])
  {
    hide CharOf, Chars;
    ghost var digits := buf[from..];
    s := front;
    NoChars(digits);
    for it := from to buf.Length
      invariant s == front + Chars(digits[..it - from])
    {
      assert buf[it] == digits[it - from];
      NextChar(digits, it - from);
      s := s + [CharOf(buf[it])];
    }
    assert digits[..|digits|] == digits;
  }

  lemma NoChars(d: seq<nat>)
    ensures Digits(d[..0], 58) && Chars(d[..0]) == ""
  {
  }

  lemma NextChar(d: seq<nat>, k: nat)
    requires Digits(d, 58) && k < |d|
    ensures Chars(d[..k + 1]) == Chars(d[..k]) + [CharOf(d[k])]
  {
    hide CharOf;
  }

  lemma ZeroChars(z: nat, d: seq<nat>)
    requires Digits(d, 58)
    ensures Digits(Zeros(z) + d, 58) && seq(z, _ => '1') + Chars(d) == Chars(Zeros(z) + d)
  {
  }

  /** The decoder's main loop, from the first character that is not a '1' to a space or the end. */
  method ReadWord(text: string, zeroes: nat, size: nat)
      returns (ok: bool, q: nat, b256: array<nat>, length: nat, ghost digits: seq<nat>)
    requires zeroes <= |text| && forall k :: 0 <= k < zeroes ==> text[k] == '1'
    requires zeroes < |text| ==> text[zeroes] != '1'
    requires Pow(58, |text| - zeroes) < Pow(256, size)
    ensures !ok ==> !IsBase58(DropSpaces(text))
    ensures ok ==>
      && zeroes <= q <= |text| && (q == |text| || IsSpace(text[q]))
      && b256.Length == size && length <= size && Digits(b256[..], 256)
      && (forall k :: 0 <= k < size - length ==> b256[k] == 0)
      && Read(text, zeroes, q, digits) && Val(b256[..], 256) == Val(digits, 58)
  {
    hide Val, Pow, DropSpaces, Read, DigitOf;
    b256 := new nat[size](_ => 0);
    digits := [];
    ZeroVal(b256[..], 256);
    ZeroVal(digits, 58);
    q, length := zeroes, 0;
    ReadNone(text, zeroes);
    while q < |text| && !IsSpace(text[q])
      invariant zeroes <= q <= |text| && b256.Length == size && length <= size && Digits(b256[..], 256)
      invariant forall k :: 0 <= k < size - length ==> b256[k] == 0
      invariant Read(text, zeroes, q, digits) && Val(b256[..], 256) == Val(digits, 58)
    {
      var ch := DigitOf(text[q]);
      if ch == -1 {
        BadChar(text, q);
        return false, q, b256, length, digits;
      }
      AppendVal(digits, ch, 58);
      ReadNext(text, zeroes, q, digits, ch);
      RoomFor(digits + [ch], |text| - zeroes, 58, 256, size);
      var i, carry := MulAdd(b256, 256, 58, ch, length);
      assert carry == 0;
      length := i;
      digits := digits + [ch];
      q := q + 1;
    }
    ok := true;
  }

  /** The text up to q is a run of '1's followed by the given digits, the first of them not zero. */
  predicate Read(text: string, zeroes: nat, q: nat, digits: seq<nat>)
    requires zeroes <= q <= |text|
  {
    && IsBase58(text[..q]) && Digits(digits, 58) && |digits| == q - zeroes
    && Places(text[..q]) == Zeros(zeroes) + digits
    && (digits == [] || digits[0] != 0)
  }

  lemma ReadNone(text: string, zeroes: nat)
    requires zeroes <= |text| && forall k :: 0 <= k < zeroes ==> text[k] == '1'
    ensures Read(text, zeroes, zeroes, [])
  {
  }

  lemma ReadNext(text: string, zeroes: nat, q: nat, digits: seq<nat>, ch: nat)
    requires zeroes <= q < |text| && Read(text, zeroes, q, digits) && DigitOf(text[q]) == ch
    requires text[zeroes] != '1'
    ensures Read(text, zeroes, q + 1, digits + [ch]) && Digits(digits + [ch], 58)
    ensures |digits + [ch]| <= |text| - zeroes
  {
    NextPlace(text, q, ch);
    CharDigit(0, text[q]);
    assert Zeros(zeroes) + digits + [ch] == Zeros(zeroes) + (digits + [ch]);
  }

  method DecodeBase58(str: string) returns (ok: bool, v: seq<nat>)
    ensures ok <==> IsBase58(Trimmed(str))
    ensures ok ==> v == Decoded(Trimmed(str))
  {
    hide Val, Pow, ToDigits, Strip, CString, SkipSpaces, DropSpaces, DigitOf, Read, Recode, Places, IsBase58;
    var s := CString(str);
    v := [];
    var p: nat := 0;
    while p < |s| && IsSpace(s[p])
      invariant p <= |s| && Spaces(s, 0, p)
    {
      p := p + 1;
    }
    SkipsTo(s, p);
    var text := s[p..];
    var zeroes: nat := 0;
    while zeroes < |text| && text[zeroes] == '1'
      invariant zeroes <= |text| && forall k :: 0 <= k < zeroes ==> text[k] == '1'
    {
      zeroes := zeroes + 1;
    }
    var size := (|text| - zeroes) * 733 / 1000 + 1;
    DecodeFits(|text| - zeroes);
    var word, q, b256, length, digits := ReadWord(text, zeroes, size);
    if !word { return false, v; }
    var end := q;
    while end < |text| && IsSpace(text[end])
      invariant q <= end <= |text| && Spaces(text, q, end)
    {
      end := end + 1;
    }
    ReadIs58(text, zeroes, q, digits);
    WordEnds(text, q, end);
    if end < |text| { return false, v; }
    var it := Significant(b256, length);
    StripToDigits(b256[..], 256);
    DecodedIs(text, zeroes, q, digits);
    v := Zeros(zeroes) + b256[it..];
    ok := true;
  }

  lemma ReadIs58(text: string, zeroes: nat, q: nat, digits: seq<nat>)
    requires zeroes <= q <= |text| && Read(text, zeroes, q, digits)
    ensures IsBase58(text[..q])
  {
  }

  lemma DecodedIs(text: string, zeroes: nat, q: nat, digits: seq<nat>)
    requires zeroes <= q <= |text| && Read(text, zeroes, q, digits)
    ensures IsBase58(text[..q]) && Decoded(text[..q]) == Zeros(zeroes) + ToDigits(Val(digits, 58), 256)
  {
    hide Val, ToDigits, Strip, IsBase58, Digits;
    ReadIs58(text, zeroes, q, digits);
    var d := Zeros(zeroes) + digits;
    assert Places(text[..q]) == d;
    StripPadded(zeroes, digits);
    StripVal(d, 58);
    assert |d| - |Strip(d)| == zeroes;
  }

  lemma SkipsTo(s: string, p: nat)
    requires p <= |s| && Spaces(s, 0, p) && (p == |s| || !IsSpace(s[p]))
    ensures SkipSpaces(s) == s[p..]
  {
    var r := SkipSpaces(s);
    assert r != "" ==> r[0] == s[|s| - |r|];
    assert |s| - |r| == p;
  }

  lemma NextPlace(text: string, q: nat, ch: nat)
    requires q < |text| && IsBase58(text[..q]) && DigitOf(text[q]) == ch
    ensures IsBase58(text[..q + 1]) && Places(text[..q + 1]) == Places(text[..q]) + [ch]
  {
    assert text[..q + 1] == text[..q] + [text[q]];
  }

  /** A character outside the alphabet inside the word is still there after trimming. */
  lemma BadChar(text: string, q: nat)
    requires q < |text| && !IsSpace(text[q]) && DigitOf(text[q]) == -1
    ensures !IsBase58(DropSpaces(text))
  {
    var w := DropSpaces(text);
    assert |w| > q;
    assert w[q] == text[q];
  }

  /** When the word ends and the spaces after it end too, the trimmed text is the word or has a space inside. */
  lemma WordEnds(text: string, q: nat, end: nat)
    requires q <= end <= |text| && IsBase58(text[..q]) && Spaces(text, q, end)
    requires q == |text| || IsSpace(text[q])
    requires end == |text| || !IsSpace(text[end])
    ensures end == |text| ==> DropSpaces(text) == text[..q]
    ensures end < |text| ==> !IsBase58(DropSpaces(text))
  {
    var w := DropSpaces(text);
    if end == |text| {
      if q > 0 { CharDigit(0, text[..q][q - 1]); }
      assert |w| == q;
    } else {
      assert |w| > end;
      assert w[q] == text[q];
      CharDigit(0, w[q]);
    }
  }
}
