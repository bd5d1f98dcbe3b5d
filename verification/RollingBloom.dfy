/** The rolling bloom filter: every cell holds the number of the generation that last set it, and
    three generation numbers are recycled. It never forgets the most recent keys. */
module RollingBloom {
  import opened Numbers

  type Key = seq<nat>

  /** A 64-bit word, as the set of its one bits. */
  type Word = set<nat>
  const ALL_ONES: Word := set b | 0 <= b < 64

  function Xor(a: Word, b: Word): Word { (a - b) + (b - a) }

  /** All ones or all zeros. */
  function Spread(on: bool): Word { if on then ALL_ONES else {} }

  /** The two low bits of a generation number. */
  predicate LowBit(g: nat) { g % 2 == 1 }
  predicate HighBit(g: nat) { g / 2 == 1 }

  type Hasher = (nat, Key) -> nat

  /** Words come in pairs: two bits per cell. */
  predicate Shape(d: seq<Word>)
  {
    |d| > 0 && |d| % 2 == 0 && forall k :: 0 <= k < |d| ==> d[k] <= ALL_ONES
  }

  /** The cell at a bit of a pair of words: 0 if unset, else the generation that set it. */
  function Cell(d: seq<Word>, even: nat, bit: nat): (g: nat)
    requires even + 1 < |d|
    ensures g <= 3
  {
    (if bit in d[even] then 1 else 0) + (if bit in d[even + 1] then 2 else 0)
  }

  function Bit(h: nat): (b: nat) ensures b < 64 { h % 64 }

  function Even(h: nat, size: nat): (e: nat)
    requires size > 0 && size % 2 == 0
    ensures e % 2 == 0 && e + 1 < size
  {
    var pos := (h / 64) % size;
    pos - pos % 2
  }

  /** The cell that one hash function assigns to a key. */
  function KeyCell(d: seq<Word>, hash: Hasher, key: Key, n: nat): (g: nat)
    requires Shape(d)
    ensures g <= 3
  {
    Cell(d, Even(hash(n, key), |d|), Bit(hash(n, key)))
  }

  // ----- the two changes of the data -----

  /** A pair of words with every cell of one generation cleared. */
  function WipedWord(d: seq<Word>, g: nat, k: nat): Word
    requires k < |d| && |d| % 2 == 0
  {
    var even := k - k % 2;
    d[k] * (Xor(d[even], Spread(LowBit(g))) + Xor(d[even + 1], Spread(HighBit(g))))
  }

  function Wiped(d: seq<Word>, g: nat): (r: seq<Word>)
    requires |d| % 2 == 0
    ensures |r| == |d|
  {
    seq(|d|, k requires 0 <= k < |d| => WipedWord(d, g, k))
  }

  lemma WipedCells(d: seq<Word>, g: nat, even: nat, bit: nat)
    requires Shape(d) && 1 <= g <= 3 && even % 2 == 0 && even + 1 < |d| && bit < 64
    ensures Shape(Wiped(d, g))
    ensures Cell(Wiped(d, g), even, bit) == if Cell(d, even, bit) == g then 0 else Cell(d, even, bit)
  {
    var w := Wiped(d, g);
    assert w[even] == WipedWord(d, g, even) && w[even + 1] == WipedWord(d, g, even + 1);
    assert bit in ALL_ONES;
  }

  function SetBit(w: Word, bit: nat, on: bool): Word
  {
    (w - {bit}) + (if on then {bit} else {})
  }

  /** One cell set to a generation. */
  function Stamped(d: seq<Word>, even: nat, bit: nat, g: nat): seq<Word>
    requires even + 1 < |d|
  {
    d[even := SetBit(d[even], bit, LowBit(g))][even + 1 := SetBit(d[even + 1], bit, HighBit(g))]
  }

  lemma StampedCells(d: seq<Word>, even: nat, bit: nat, g: nat, e: nat, b: nat)
    requires Shape(d) && 1 <= g <= 3 && even % 2 == 0 && even + 1 < |d| && bit < 64
    requires e % 2 == 0 && e + 1 < |d|
    ensures Shape(Stamped(d, even, bit, g))
    ensures Cell(Stamped(d, even, bit, g), e, b) == if e == even && b == bit then g else Cell(d, e, b)
  {
    var s := Stamped(d, even, bit, g);
    assert s[even] == SetBit(d[even], bit, LowBit(g)) && s[even + 1] == SetBit(d[even + 1], bit, HighBit(g));
    assert bit in ALL_ONES;
  }

  /** The cells of a key, for the first hash functions, set to a generation. */
  function StampedKey(d: seq<Word>, hash: Hasher, key: Key, g: nat, n: nat): (r: seq<Word>)
    requires Shape(d) && 1 <= g <= 3
    ensures |r| == |d| && Shape(r)
  {
    if n == 0 then d else
      var r := StampedKey(d, hash, key, g, n - 1);
      var h := hash(n - 1, key);
      StampedCells(r, Even(h, |r|), Bit(h), g, 0, 0);
      Stamped(r, Even(h, |r|), Bit(h), g)
  }

  /** Stamping a key sets all its cells, and changes others only to the same generation. */
  lemma {:induction false} StampedKeyCells(d: seq<Word>, hash: Hasher, key: Key, g: nat, n: nat)
    requires Shape(d) && 1 <= g <= 3
    ensures forall i: nat :: i < n ==> KeyCell(StampedKey(d, hash, key, g, n), hash, key, i) == g
    ensures forall other: Key, i: nat :: KeyCell(StampedKey(d, hash, key, g, n), hash, other, i) == g ||
                                         KeyCell(StampedKey(d, hash, key, g, n), hash, other, i) ==
                                             KeyCell(d, hash, other, i)
  {
    hide Even, Bit, Cell, Stamped;
    if n > 0 {
      StampedKeyCells(d, hash, key, g, n - 1);
      var r := StampedKey(d, hash, key, g, n - 1);
      var h := hash(n - 1, key);
      forall other: Key, i: nat
        ensures KeyCell(StampedKey(d, hash, key, g, n), hash, other, i) ==
                  if Even(hash(i, other), |r|) == Even(h, |r|) && Bit(hash(i, other)) ==
                      Bit(h) then g else KeyCell(r, hash, other, i)
      {
        var ho := hash(i, other);
        StampedCells(r, Even(h, |r|), Bit(h), g, Even(ho, |r|), Bit(ho));
      }
    }
  }

  // ----- ages -----

  /** How many generations ago a cell was set. */
  function Age(generation: nat, g: nat): nat
    requires 1 <= generation <= 3 && 1 <= g <= 3
  {
    (generation + 3 - g) % 3
  }

  function NextGeneration(g: nat): nat { if g + 1 == 4 then 1 else g + 1 }

  /** How many generations ago the j-th last key was inserted, with c keys in the current generation. */
  function KeyAge(j: nat, c: nat, perGeneration: nat): nat
    requires perGeneration > 0
  {
    if j < c then 0 else 1 + (j - c) / perGeneration
  }

  /** The cells of a key inserted at most two generations ago are set, and no older than the key. */
  ghost predicate Remembered(d: seq<Word>, hash: Hasher, funcs: nat, generation: nat, key: Key, age: nat)
    requires Shape(d) && 1 <= generation <= 3
  {
    age <= 2 ==> forall n: nat :: n < funcs ==>
      KeyCell(d, hash, key, n) != 0 && Age(generation, KeyCell(d, hash, key, n)) <= age
  }

  /** Advancing the generation wipes only cells that would become three generations old. */
  lemma AdvanceKeeps(d: seq<Word>, hash: Hasher, funcs: nat, generation: nat, key: Key, age: nat)
    requires Shape(d) && 1 <= generation <= 3 && Remembered(d, hash, funcs, generation, key, age)
    ensures Shape(Wiped(d, NextGeneration(generation)))
    ensures Remembered(Wiped(d, NextGeneration(generation)), hash, funcs, NextGeneration(generation), key, age + 1)
  {
    hide Wiped, Cell, Even, Bit;
    var g := NextGeneration(generation);
    WipedCells(d, g, 0, 0);
    forall n: nat | n < funcs && age + 1 <= 2
      ensures KeyCell(Wiped(d, g), hash, key, n) != 0 && Age(g, KeyCell(Wiped(d, g), hash, key, n)) <= age + 1
    {
      var h := hash(n, key);
      assert KeyCell(d, hash, key, n) != 0;
      WipedCells(d, g, Even(h, |d|), Bit(h));
    }
  }

  /** Stamping another key makes no remembered key older. */
  lemma StampKeeps(d: seq<Word>, hash: Hasher, funcs: nat, generation: nat, added: Key, key: Key, age: nat)
    requires Shape(d) && 1 <= generation <= 3 && Remembered(d, hash, funcs, generation, key, age)
    ensures var r := StampedKey(d, hash, added, generation, funcs);
            Remembered(r, hash, funcs, generation, key, age)
  {
    hide KeyCell, StampedKey, Shape;
    StampedKeyCells(d, hash, added, generation, funcs);
  }

  /** Inserting moves every earlier key one place back; its age grows exactly when the generation advances. */
  lemma AgeStep(j: nat, c: nat, perGeneration: nat)
    requires perGeneration > 0 && c <= perGeneration
    ensures c < perGeneration ==> KeyAge(j + 1, c + 1, perGeneration) == KeyAge(j, c, perGeneration)
    ensures c == perGeneration ==> KeyAge(j + 1, 1, perGeneration) == KeyAge(j, c, perGeneration) + 1
  {
    if c == perGeneration && j >= c {
      DivStep(j - c, perGeneration);
      assert j - c + perGeneration == j;
    }
  }

  lemma DivStep(x: nat, d: nat)
    requires d > 0
    ensures (x + d) / d == x / d + 1
    ensures x < d ==> x / d == 0
  {
    var q, r := x / d, x % d;
    assert x == q * d + r;
    assert (q + 1) * d == q * d + d;
    QuotientOf(q + 1, r, d);
    if x < d { QuotientOf(0, x, d); }
  }

  /** Keys among the last nElements are at most two generations old. */
  lemma RecentAge(j: nat, c: nat, nElements: nat)
    requires j < nElements
    ensures (nElements + 1) / 2 > 0 && KeyAge(j, c, (nElements + 1) / 2) <= 2
  {
    var e := (nElements + 1) / 2;
    if j >= c {
      assert j - c < 2 * e;
      if j - c >= e {
        DivStep(j - c - e, e);
        assert j - c - e + e == j - c;
        DivStep(j - c - e, e);
      } else {
        DivStep(j - c, e);
      }
    }
  }

  lemma WipedShape(d: seq<Word>, g: nat)
    requires Shape(d) && 1 <= g <= 3
    ensures Shape(Wiped(d, g))
  {
    WipedCells(d, g, 0, 0);
  }

  /** The data, the generation and the count of its keys, when a key is about to be stamped. */
  function Advanced(d: seq<Word>, g: nat, c: nat, perGeneration: nat): (seq<Word>, nat, nat)
    requires |d| % 2 == 0
  {
    if c == perGeneration then (Wiped(d, NextGeneration(g)), NextGeneration(g), 1) else (d, g, c + 1)
  }

  /** After an insertion, each key is remembered according to its new place. */
  lemma RememberStep(d: seq<Word>, hash: Hasher, funcs: nat, g: nat, c: nat, perGeneration: nat, history: seq<Key>,
                     key: Key, i: nat)
    requires Shape(d) && 1 <= g <= 3 && 0 < perGeneration && c <= perGeneration && i <= |history|
    requires forall k :: 0 <= k < |history| ==> Remembered(d, hash, funcs, g, history[k],
        KeyAge(|history| - 1 - k, c, perGeneration))
    ensures var (d1, g1, c1) := Advanced(d, g, c, perGeneration);
            && Shape(d1)
            && Remembered(StampedKey(d1, hash, key, g1, funcs), hash, funcs, g1, (history + [key])[i],
                  KeyAge(|history| - i, c1, perGeneration))
  {
    hide StampedKey, Wiped, KeyCell, Remembered;
    var (d1, g1, c1) := Advanced(d, g, c, perGeneration);
    WipedShape(d, NextGeneration(g));
    if i == |history| {
      StampedRemembered(d1, hash, funcs, g1, key);
    } else {
      var j := |history| - 1 - i;
      AgeStep(j, c, perGeneration);
      if c == perGeneration {
        AdvanceKeeps(d, hash, funcs, g, history[i], KeyAge(j, c, perGeneration));
      }
      StampKeeps(d1, hash, funcs, g1, key, history[i], KeyAge(j + 1, c1, perGeneration));
    }
  }

  lemma StampedRemembered(d: seq<Word>, hash: Hasher, funcs: nat, g: nat, key: Key)
    requires Shape(d) && 1 <= g <= 3
    ensures Remembered(StampedKey(d, hash, key, g, funcs), hash, funcs, g, key, 0)
  {
    hide KeyCell, StampedKey, Shape;
    StampedKeyCells(d, hash, key, g, funcs);
  }

  // ----- nothing else is set -----

  /** One of the key's cells is the given one. */
  predicate Touches(hash: Hasher, funcs: nat, key: Key, size: nat, even: nat, bit: nat)
    requires size > 0 && size % 2 == 0
  {
    exists n: nat :: n < funcs && Even(hash(n, key), size) == even && Bit(hash(n, key)) == bit
  }

  /** A key of the given age has the cell. */
  ghost predicate SetBy(hash: Hasher, funcs: nat, history: seq<Key>, c: nat, perGeneration: nat, size: nat, even: nat,
                        bit: nat, age: nat)
    requires size > 0 && size % 2 == 0 && perGeneration > 0
  {
    exists i :: 0 <= i < |history| && KeyAge(|history| - 1 - i, c, perGeneration) == age
      && Touches(hash, funcs, history[i], size, even, bit)
  }

  /** Every cell that is set was set by a key of the generation it holds. */
  ghost predicate Justified(d: seq<Word>, hash: Hasher, funcs: nat, g: nat, history: seq<Key>, c: nat,
                            perGeneration: nat)
    requires Shape(d) && 1 <= g <= 3 && perGeneration > 0
  {
    forall even: nat, bit: nat :: even % 2 == 0 && even + 1 < |d| && Cell(d, even, bit) != 0 ==>
      SetBy(hash, funcs, history, c, perGeneration, |d|, even, bit, Age(g, Cell(d, even, bit)))
  }

  lemma {:induction false} StampedOthers(d: seq<Word>, hash: Hasher, key: Key, g: nat, n: nat, even: nat, bit: nat)
    requires Shape(d) && 1 <= g <= 3 && even % 2 == 0 && even + 1 < |d|
    ensures Cell(StampedKey(d, hash, key, g, n), even, bit) ==
      if Touches(hash, n, key, |d|, even, bit) then g else Cell(d, even, bit)
    decreases n
  {
    hide Even, Bit, Cell, Stamped;
    if n > 0 {
      StampedOthers(d, hash, key, g, n - 1, even, bit);
      var r := StampedKey(d, hash, key, g, n - 1);
      var h := hash(n - 1, key);
      StampedCells(r, Even(h, |r|), Bit(h), g, even, bit);
    }
  }

  /** A key moves one place back; in a new generation it is one older. */
  lemma SetByLater(hash: Hasher, funcs: nat, history: seq<Key>, key: Key, c: nat, perGeneration: nat, size: nat,
                   even: nat, bit: nat, age: nat)
    requires size > 0 && size % 2 == 0 && perGeneration > 0 && c <= perGeneration
    requires SetBy(hash, funcs, history, c, perGeneration, size, even, bit, age)
    ensures c < perGeneration ==> SetBy(hash, funcs, history + [key], c + 1, perGeneration, size, even, bit, age)
    ensures c == perGeneration ==> SetBy(hash, funcs, history + [key], 1, perGeneration, size, even, bit, age + 1)
  {
    hide KeyAge, Touches;
    var i :| 0 <= i < |history| && KeyAge(|history| - 1 - i, c, perGeneration) == age
      && Touches(hash, funcs, history[i], size, even, bit);
    var more := history + [key];
    AgeStep(|history| - 1 - i, c, perGeneration);
    assert more[i] == history[i] && |more| - 1 - i == |history| - 1 - i + 1;
  }

  lemma AgedCell(d: seq<Word>, g: nat, even: nat, bit: nat)
    requires Shape(d) && 1 <= g <= 3 && even % 2 == 0 && even + 1 < |d|
    ensures var n := NextGeneration(g);
      var v := Cell(d, even, bit);
      && Shape(Wiped(d, n)) && Cell(Wiped(d, n), even, bit) == (if v == n then 0 else v)
      && (v != 0 && v != n ==> Age(n, v) == Age(g, v) + 1)
  {
    hide Wiped, Cell;
    if bit < 64 {
      WipedCells(d, NextGeneration(g), even, bit);
    } else {
      NoSuchBit(d, NextGeneration(g), even, bit);
    }
  }

  lemma NoSuchBit(d: seq<Word>, g: nat, even: nat, bit: nat)
    requires Shape(d) && 1 <= g <= 3 && even % 2 == 0 && even + 1 < |d| && bit >= 64
    ensures Shape(Wiped(d, g)) && Cell(d, even, bit) == 0 && Cell(Wiped(d, g), even, bit) == 0
  {
    WipedShape(d, g);
    var w := Wiped(d, g);
    assert w[even] <= ALL_ONES && w[even + 1] <= ALL_ONES;
  }

  /** After an insertion every cell that is set is still justified. */
  lemma JustifiedStep(d: seq<Word>, hash: Hasher, funcs: nat, g: nat, c: nat, perGeneration: nat, history: seq<Key>,
                      key: Key)
    requires Shape(d) && 1 <= g <= 3 && 0 < perGeneration && c <= perGeneration
    requires Justified(d, hash, funcs, g, history, c, perGeneration)
    ensures var (d1, g1, c1) := Advanced(d, g, c, perGeneration);
      Shape(d1) && Justified(StampedKey(d1, hash, key, g1, funcs), hash, funcs, g1, history + [key], c1, perGeneration)
  {
    hide StampedKey, Wiped, Cell, SetBy, Touches;
    var (d1, g1, c1) := Advanced(d, g, c, perGeneration);
    WipedShape(d, NextGeneration(g));
    var r := StampedKey(d1, hash, key, g1, funcs);
    forall even: nat, bit: nat | even % 2 == 0 && even + 1 < |r| && Cell(r, even, bit) != 0
      ensures SetBy(hash, funcs, history + [key], c1, perGeneration, |r|, even, bit, Age(g1, Cell(r, even, bit)))
    {
      StampedOthers(d1, hash, key, g1, funcs, even, bit);
      if Touches(hash, funcs, key, |d|, even, bit) {
        SetByNow(hash, funcs, history, key, c1, perGeneration, |d|, even, bit);
      } else {
        AgedCell(d, g, even, bit);
        SetByLater(hash, funcs, history, key, c, perGeneration, |d|, even, bit, Age(g, Cell(d, even, bit)));
      }
    }
  }

  lemma SetByNow(hash: Hasher, funcs: nat, history: seq<Key>, key: Key, c: nat, perGeneration: nat, size: nat,
                 even: nat, bit: nat)
    requires size > 0 && size % 2 == 0 && perGeneration > 0 && c > 0 && Touches(hash, funcs, key, size, even, bit)
    ensures SetBy(hash, funcs, history + [key], c, perGeneration, size, even, bit, 0)
  {
    hide Touches;
    var more := history + [key];
    assert more[|history|] == key && KeyAge(|more| - 1 - |history|, c, perGeneration) == 0;
  }

  /** Keys at most two generations old are among the last three generations' worth of keys. */
  lemma OldestAge(j: nat, c: nat, perGeneration: nat)
    requires perGeneration > 0 && c <= perGeneration && KeyAge(j, c, perGeneration) <= 2
    ensures j < 3 * perGeneration
  {
    if j >= c {
      var q := (j - c) / perGeneration;
      assert j - c == q * perGeneration + (j - c) % perGeneration;
      Below(q, 2, perGeneration);
    }
  }

  class RollingBloomFilter {
    const nElements: nat
    const nEntriesPerGeneration: nat
    const nHashFuncs: nat
    const data: array<Word>
    var hash: Hasher                    // the hash functions under the current tweak
    var nEntriesThisGeneration: nat
    var nGeneration: nat
    ghost var history: seq<Key>         // the keys inserted since the last reset

    ghost predicate Valid()
      reads this, data
    {
      && nEntriesPerGeneration == (nElements + 1) / 2
      && Shape(data[..])
      && 1 <= nGeneration <= 3
      && nEntriesThisGeneration <= |history|
      && (nEntriesPerGeneration > 0 ==>
            && nEntriesThisGeneration <= nEntriesPerGeneration
            && forall i :: 0 <= i < |history| ==>
                 Remembered(data[..], hash, nHashFuncs, nGeneration, history[i],
                            KeyAge(|history| - 1 - i, nEntriesThisGeneration, nEntriesPerGeneration)))
      && (nEntriesPerGeneration > 0 ==>
            Justified(data[..], hash, nHashFuncs, nGeneration, history, nEntriesThisGeneration, nEntriesPerGeneration))
    }

    constructor (nElements: nat, nHashFuncs: nat, words: nat, hash: Hasher)
      requires words > 0
      ensures Valid() && history == [] && this.nElements == nElements && fresh(data)
    {
      this.nElements, this.nHashFuncs, this.hash := nElements, nHashFuncs, hash;
      nEntriesPerGeneration := (nElements + 1) / 2;
      data := new Word[2 * words](_ => {});
      nEntriesThisGeneration, nGeneration, history := 0, 1, [];
    }

    method Reset(hash: Hasher)
      requires Valid()
      modifies this`hash, this`nEntriesThisGeneration, this`nGeneration, this`history, data
      ensures Valid() && history == [] && this.hash == hash && forall k :: 0 <= k < data.Length ==> data[k] == {}
    {
      this.hash := hash;
      nEntriesThisGeneration, nGeneration, history := 0, 1, [];
      var k := 0;
      while k < data.Length
        invariant 0 <= k <= data.Length
        invariant forall i :: 0 <= i < k ==> data[i] == {}
        modifies data
      {
        data[k] := {};
        k := k + 1;
      }
    }

    /** Clears the cells of the generation number about to be reused. */
    method Wipe()
      requires Shape(data[..]) && 1 <= nGeneration <= 3
      modifies data
      ensures data[..] == Wiped(old(data[..]), nGeneration)
    {
      ghost var before := data[..];
      var p := 0;
      while p < data.Length
        invariant 0 <= p <= data.Length && p % 2 == 0
        invariant forall k :: 0 <= k < p ==> data[k] == WipedWord(before, nGeneration, k)
        invariant forall k :: p <= k < data.Length ==> data[k] == before[k]
      {
        var p1, p2 := data[p], data[p + 1];
        var mask := Xor(p1, Spread(LowBit(nGeneration))) + Xor(p2, Spread(HighBit(nGeneration)));
        data[p] := p1 * mask;
        data[p + 1] := p2 * mask;
        p := p + 2;
      }
    }

    method Stamp(key: Key)
      requires Shape(data[..]) && 1 <= nGeneration <= 3
      modifies data
      ensures data[..] == StampedKey(old(data[..]), hash, key, nGeneration, nHashFuncs)
    {
      hide Even, Bit;
      ghost var before := data[..];
      var n := 0;
      while n < nHashFuncs
        invariant 0 <= n <= nHashFuncs
        invariant data[..] == StampedKey(before, hash, key, nGeneration, n)
      {
        var h := hash(n, key);
        var bit, even := Bit(h), Even(h, data.Length);
        ghost var was := data[..];
        data[even] := SetBit(data[even], bit, LowBit(nGeneration));
        data[even + 1] := SetBit(data[even + 1], bit, HighBit(nGeneration));
        assert data[..] == Stamped(was, even, bit, nGeneration);
        n := n + 1;
      }
    }

    method Insert(key: Key)
      requires Valid()
      modifies this`nEntriesThisGeneration, this`nGeneration, this`history, data
      ensures Valid() && history == old(history) + [key]
    {
      hide Shape, StampedKey, Wiped, KeyCell, Remembered, KeyAge, Justified;
      ghost var d0, c0 := data[..], nEntriesThisGeneration;
      if nEntriesThisGeneration == nEntriesPerGeneration {
        nEntriesThisGeneration := 0;
        nGeneration := nGeneration + 1;
        if nGeneration == 4 {
          nGeneration := 1;
        }
        Wipe();
        WipedShape(d0, nGeneration);
      }
      nEntriesThisGeneration := nEntriesThisGeneration + 1;
      ghost var d1 := data[..];
      Stamp(key);
      history := history + [key];
      if nEntriesPerGeneration > 0 {
        JustifiedStep(d0, hash, nHashFuncs, old(nGeneration), c0, nEntriesPerGeneration, old(history), key);
        forall i | 0 <= i < |history|
          ensures Remembered(data[..], hash, nHashFuncs, nGeneration, history[i],
                             KeyAge(|history| - 1 - i, nEntriesThisGeneration, nEntriesPerGeneration))
        {
          RememberStep(d0, hash, nHashFuncs, old(nGeneration), c0, nEntriesPerGeneration, old(history), key, i);
        }
      }
    }

    /** A key among the last three generations' worth shares the cell that hash function n gives to a key. */
    ghost predicate Recent(key: Key, n: nat)
      requires data.Length > 0 && data.Length % 2 == 0
      reads this
    {
      exists i :: 0 <= i < |history| && |history| - 3 * nEntriesPerGeneration <= i
        && Touches(hash, nHashFuncs, history[i], data.Length, Even(hash(n, key), data.Length), Bit(hash(n, key)))
    }

    lemma RecentlySet(key: Key, n: nat)
      requires Valid() && nEntriesPerGeneration > 0 && KeyCell(data[..], hash, key, n) != 0
      ensures Recent(key, n)
    {
      hide Touches, KeyAge, Even, Bit, Cell, Remembered;
      var even, bit := Even(hash(n, key), data.Length), Bit(hash(n, key));
      var age := Age(nGeneration, Cell(data[..], even, bit));
      assert SetBy(hash, nHashFuncs, history, nEntriesThisGeneration, nEntriesPerGeneration, data.Length, even, bit,
                   age);
      var i :| 0 <= i < |history| && KeyAge(|history| - 1 - i, nEntriesThisGeneration, nEntriesPerGeneration) == age
        && Touches(hash, nHashFuncs, history[i], data.Length, even, bit);
      OldestAge(|history| - 1 - i, nEntriesThisGeneration, nEntriesPerGeneration);
    }

    /** Whether every cell of the key is set. For the last nElements keys the answer is yes; and it is yes only if
        each of its cells belongs to one of the keys of the last three generations. */
    method Contains(key: Key) returns (r: bool)
      requires Valid()
      ensures r <==> forall n: nat :: n < nHashFuncs ==> KeyCell(data[..], hash, key, n) != 0
      ensures forall i :: 0 <= i < |history| && |history| - nElements <= i && history[i] == key ==> r
      ensures r && nElements > 0 ==> forall n: nat :: n < nHashFuncs ==> Recent(key, n)
    {
      hide Even, Bit, KeyAge, Age, Justified, Recent;
      forall n: nat | nElements > 0 && KeyCell(data[..], hash, key, n) != 0 ensures Recent(key, n) {
        RecentlySet(key, n);
      }
      forall i | 0 <= i < |history| && |history| - nElements <= i && history[i] == key
        ensures forall n: nat :: n < nHashFuncs ==> KeyCell(data[..], hash, key, n) != 0
      {
        RecentAge(|history| - 1 - i, nEntriesThisGeneration, nElements);
        assert Remembered(data[..], hash, nHashFuncs, nGeneration, history[i],
            KeyAge(|history| - 1 - i, nEntriesThisGeneration, nEntriesPerGeneration));
      }
      var n := 0;
      while n < nHashFuncs
        invariant 0 <= n <= nHashFuncs
        invariant forall i: nat :: i < n ==> KeyCell(data[..], hash, key, i) != 0
      {
        var h := hash(n, key);
        var bit, even := Bit(h), Even(h, data.Length);
        if bit !in data[even] + data[even + 1] {
          assert KeyCell(data[..], hash, key, n) == 0;
          return false;
        }
        n := n + 1;
      }
      return true;
    }
  }
}
