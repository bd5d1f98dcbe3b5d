/** A cuckoo cache of fixed size: eight places per element, lazy erasure, and two generations. */
module Cuckoo {

  /** A 256-bit digest; zero is what unused slots hold. */
  type Element = nat

  const WAYS: nat := 8

  datatype Hash = Hash(select: (Element, nat) -> nat)

  type Entry = (Element, bool)

  datatype Cache = Cache(
    hash: Hash,
    table: seq<Element>,
    collected: seq<bool>,
    epoch: seq<bool>,
    counter: nat,
    epochSize: nat,
    depthLimit: nat)
  {
    ghost predicate Shape()
    {
      |table| > 0 && |collected| == |epoch| == |table|
    }

    /** The eight slots of an element. */
    function Locs(e: Element): (r: seq<nat>)
      requires |table| > 0
      ensures |r| == WAYS && forall k :: 0 <= k < WAYS ==> r[k] < |table|
    {
      seq(WAYS, k requires 0 <= k < WAYS => hash.select(e, k) % |table|)
    }

    /** Every element that is kept stands in one of its own slots. */
    ghost predicate Settled()
      requires Shape()
    {
      forall i :: 0 <= i < |table| && !collected[i] ==> i in Locs(table[i])
    }

    ghost predicate Valid() { Shape() && Settled() }
  }

  /** The entries of the first n slots that are kept, with their generation. */
  ghost function KeptIn(c: Cache, n: nat): multiset<Entry>
    requires c.Shape() && n <= |c.table|
  {
    if n == 0 then multiset{} else KeptIn(c, n - 1) + SlotOf(c, n - 1)
  }

  ghost function SlotOf(c: Cache, i: nat): multiset<Entry>
    requires c.Shape() && i < |c.table|
  {
    if c.collected[i] then multiset{} else multiset{(c.table[i], c.epoch[i])}
  }

  ghost function Kept(c: Cache): multiset<Entry>
    requires c.Shape()
  {
    KeptIn(c, |c.table|)
  }

  /** The caches differ in slot i at most. */
  ghost predicate OnlyAt(c: Cache, d: Cache, i: nat)
  {
    && c.Shape() && d.Shape() && |d.table| == |c.table| && i < |c.table|
    && forall j :: 0 <= j < |c.table| && j != i ==>
         d.table[j] == c.table[j] && d.collected[j] == c.collected[j] && d.epoch[j] == c.epoch[j]
  }

  lemma {:induction false} OneSlot(c: Cache, d: Cache, i: nat, n: nat)
    requires OnlyAt(c, d, i) && n <= |c.table|
    ensures i < n ==> KeptIn(d, n) + SlotOf(c, i) == KeptIn(c, n) + SlotOf(d, i)
    ensures i >= n ==> KeptIn(d, n) == KeptIn(c, n)
    decreases n
  {
    hide SlotOf;
    if n > 0 {
      OneSlot(c, d, i, n - 1);
      if i < n - 1 {
        SameSlot(c, d, i, n - 1);
        Shift(KeptIn(d, n - 1), SlotOf(c, i), KeptIn(c, n - 1), SlotOf(d, i), SlotOf(c, n - 1));
      } else if i >= n {
        SameSlot(c, d, i, n - 1);
      } else {
        Exchange(KeptIn(c, n - 1), SlotOf(c, i), SlotOf(d, i));
      }
    }
  }

  lemma SameSlot(c: Cache, d: Cache, i: nat, j: nat)
    requires OnlyAt(c, d, i) && j < |c.table| && j != i
    ensures SlotOf(d, j) == SlotOf(c, j)
  {
  }

  lemma Shift(a: multiset<Entry>, s: multiset<Entry>, b: multiset<Entry>, t: multiset<Entry>, u: multiset<Entry>)
    requires a + s == b + t
    ensures (a + u) + s == (b + u) + t
  {
    assert (a + u) + s == (a + s) + u;
    assert (b + u) + t == (b + t) + u;
  }

  lemma Exchange(a: multiset<Entry>, s: multiset<Entry>, t: multiset<Entry>)
    ensures (a + s) + t == (a + t) + s
  {
  }

  lemma {:induction false} KeptSlot(c: Cache, x: Entry, n: nat)
    requires c.Shape() && n <= |c.table|
    ensures x in KeptIn(c, n) <==> exists i: nat :: i < n && x in SlotOf(c, i)
    decreases n
  {
    hide SlotOf;
    if n > 0 {
      KeptSlot(c, x, n - 1);
      assert x in KeptIn(c, n) <==> x in KeptIn(c, n - 1) || x in SlotOf(c, n - 1);
    }
  }

  // ----- generations -----

  /** The old generation may be overwritten, the new one becomes the old one. */
  function Age(c: Cache): (d: Cache)
    requires |c.collected| == |c.epoch|
  {
    c.(epoch := seq(|c.epoch|, _ => false),
       collected := seq(|c.epoch|, i requires 0 <= i < |c.epoch| => c.collected[i] || !c.epoch[i]))
  }

  /** Entries of the new generation that have not been erased, among the first n slots. */
  function Unused(c: Cache, n: nat): nat
    requires |c.collected| == |c.epoch| && n <= |c.epoch|
  {
    if n == 0 then 0 else Unused(c, n - 1) + if c.epoch[n - 1] && !c.collected[n - 1] then 1 else 0
  }

  function Max(a: nat, b: nat): nat { if a < b then b else a }

  predicate Ages(c: Cache)
    requires |c.collected| == |c.epoch|
  {
    c.counter == 0 && Unused(c, |c.epoch|) >= c.epochSize
  }

  function EpochCheck(c: Cache): (d: Cache)
    requires |c.collected| == |c.epoch|
    ensures |d.table| == |c.table| && |d.collected| == |d.epoch| == |c.epoch| && d.hash == c.hash && d.table == c.table
  {
    if c.counter != 0 then c.(counter := c.counter - 1)
    else if Unused(c, |c.epoch|) >= c.epochSize then Age(c).(counter := c.epochSize)
    else c.(counter := Max(1, Max(c.epochSize / 16, c.epochSize - Unused(c, |c.epoch|))))
  }

  lemma AgeShape(c: Cache)
    requires c.Shape()
    ensures Age(c).Shape() && |Age(c).table| == |c.table|
  {
  }

  lemma AgeSlot(c: Cache, x: Element, g: bool, i: nat)
    requires c.Shape() && i < |c.table|
    ensures Age(c).Shape() && SlotOf(Age(c), i)[(x, g)] == if g then 0 else SlotOf(c, i)[(x, true)]
  {
  }

  /** Ageing keeps exactly the entries of the new generation, as the old one. */
  lemma {:induction false} AgeKeeps(c: Cache, x: Element, g: bool, n: nat)
    requires c.Shape() && n <= |c.table|
    ensures Age(c).Shape()
    ensures KeptIn(Age(c), n)[(x, g)] == if g then 0 else KeptIn(c, n)[(x, true)]
    decreases n
  {
    hide SlotOf, Age;
    AgeShape(c);
    if n > 0 {
      AgeKeeps(c, x, g, n - 1);
      AgeSlot(c, x, g, n - 1);
    }
  }

  /** A round that does not age keeps every entry. */
  lemma {:induction false} SameKept(c: Cache, d: Cache, n: nat)
    requires c.Shape() && d == c.(counter := d.counter) && n <= |c.table|
    ensures KeptIn(d, n) == KeptIn(c, n)
    decreases n
  {
    hide SlotOf;
    if n > 0 {
      SameKept(c, d, n - 1);
      SlotSame(c, d, n - 1);
    }
  }

  lemma SlotSame(c: Cache, d: Cache, i: nat)
    requires c.Shape() && d == c.(counter := d.counter) && i < |c.table|
    ensures SlotOf(d, i) == SlotOf(c, i)
  {
  }

  lemma EpochCheckKeeps(c: Cache)
    requires c.Valid()
    ensures EpochCheck(c).Valid()
    ensures forall x, g :: Kept(EpochCheck(c))[(x, g)] ==
              if !Ages(c) then Kept(c)[(x, g)] else if g then 0 else Kept(c)[(x, true)]
  {
    hide KeptIn;
    var d := EpochCheck(c);
    forall i | 0 <= i < |d.table| && !d.collected[i] ensures i in d.Locs(d.table[i]) {
      assert i in c.Locs(c.table[i]);
      assert d.Locs(d.table[i]) == c.Locs(c.table[i]);
    }
    if Ages(c) {
      SameKept(Age(c), d, |c.table|);
      forall x, g ensures Kept(d)[(x, g)] == if g then 0 else Kept(c)[(x, true)] { AgeKeeps(c, x, g, |c.table|); }
    } else {
      SameKept(c, d, |c.table|);
    }
  }

  // ----- inserting -----

  /** The first of the given slots that holds e, or their number. */
  function FirstMatch(table: seq<Element>, locs: seq<nat>, e: Element): (k: nat)
    requires forall j :: 0 <= j < |locs| ==> locs[j] < |table|
    ensures k <= |locs| && (k < |locs| ==> table[locs[k]] == e) && forall j :: 0 <= j < k ==> table[locs[j]] != e
  {
    if locs == [] || table[locs[0]] == e then 0 else 1 + FirstMatch(table, locs[1..], e)
  }

  /** The first of the given slots that may be overwritten, or their number. */
  function FirstOpen(collected: seq<bool>, locs: seq<nat>): (k: nat)
    requires forall j :: 0 <= j < |locs| ==> locs[j] < |collected|
    ensures k <= |locs| && (k < |locs| ==> collected[locs[k]]) && forall j :: 0 <= j < k ==> !collected[locs[j]]
  {
    if locs == [] || collected[locs[0]] then 0 else 1 + FirstOpen(collected, locs[1..])
  }

  function FindLoc(locs: seq<nat>, loc: int): (k: nat)
    ensures k <= |locs| && (k < |locs| ==> locs[k] == loc) && forall j :: 0 <= j < k ==> locs[j] != loc
  {
    if locs == [] || locs[0] == loc then 0 else 1 + FindLoc(locs[1..], loc)
  }

  /** Puts an entry into a slot and keeps it. */
  function PutAt(c: Cache, loc: nat, e: Element, g: bool): (d: Cache)
    requires c.Shape() && loc < |c.table|
    ensures d.Shape() && OnlyAt(c, d, loc) && d.hash == c.hash
  {
    c.(table := c.table[loc := e], collected := c.collected[loc := false], epoch := c.epoch[loc := g])
  }

  /** The slot to displace next: after the one just filled, in the order of the element's slots. */
  function Victim(locs: seq<nat>, last: int): (loc: nat)
    requires |locs| == WAYS
    ensures loc in locs
  {
    locs[(1 + FindLoc(locs, last)) % WAYS]
  }

  datatype Outcome = Outcome(cache: Cache, dropped: multiset<Entry>)

  /** Displaces entries until one finds an open slot; the last one in hand is dropped. */
  function Push(c: Cache, e: Element, g: bool, last: int, depth: nat): (r: Outcome)
    requires c.Shape()
    ensures r.cache.Shape()
    decreases depth
  {
    if depth == 0 then Outcome(c, multiset{(e, g)}) else
      var locs := c.Locs(e);
      var k := FirstOpen(c.collected, locs);
      if k < WAYS then Outcome(PutAt(c, locs[k], e, g), multiset{})
      else
        var loc := Victim(locs, last);
        Push(PutAt(c, loc, e, g), c.table[loc], c.epoch[loc], loc, depth - 1)
  }

  function Insert(c: Cache, e: Element): (r: Outcome)
    requires c.Shape()
    ensures r.cache.Shape()
  {
    var d := EpochCheck(c);
    var locs := d.Locs(e);
    var k := FirstMatch(d.table, locs, e);
    if k < WAYS then Outcome(PutAt(d, locs[k], e, true), multiset{})
    else Push(d, e, true, -1, d.depthLimit)
  }

  lemma PutKeeps(c: Cache, loc: nat, e: Element, g: bool)
    requires c.Valid() && loc in c.Locs(e)
    ensures loc < |c.table| && PutAt(c, loc, e, g).Valid()
    ensures Kept(PutAt(c, loc, e, g)) + SlotOf(c, loc) == Kept(c) + multiset{(e, g)}
  {
    hide KeptIn;
    var d := PutAt(c, loc, e, g);
    OneSlot(c, d, loc, |c.table|);
    forall i | 0 <= i < |d.table| && !d.collected[i] ensures i in d.Locs(d.table[i]) {
      assert d.Locs(d.table[i]) == c.Locs(d.table[i]);
    }
  }

  /** Whatever is displaced, entries are conserved: those kept and the one dropped are those before and the new one. */
  lemma {:induction false} PushConserves(c: Cache, e: Element, g: bool, last: int, depth: nat)
    requires c.Valid()
    ensures var r := Push(c, e, g, last, depth);
      && r.cache.Valid() && |r.dropped| <= 1
      && Kept(r.cache) + r.dropped == Kept(c) + multiset{(e, g)}
    decreases depth
  {
    hide KeptIn, Cache.Settled, Cache.Locs;
    if depth > 0 {
      var locs := c.Locs(e);
      var k := FirstOpen(c.collected, locs);
      if k < WAYS {
        PutKeeps(c, locs[k], e, g);
      } else {
        var loc := Victim(locs, last);
        NoneOpen(c.collected, locs, loc);
        PutKeeps(c, loc, e, g);
        PushConserves(PutAt(c, loc, e, g), c.table[loc], c.epoch[loc], loc, depth - 1);
      }
    }
  }

  lemma NoneOpen(collected: seq<bool>, locs: seq<nat>, loc: nat)
    requires (forall j :: 0 <= j < |locs| ==> locs[j] < |collected|) && FirstOpen(collected, locs) == |locs|
    requires loc in locs
    ensures loc < |collected| && !collected[loc]
  {
    var j :| 0 <= j < |locs| && locs[j] == loc;
  }

  /** What an insertion replaces when the element is already there. */
  ghost function Refreshed(c: Cache, e: Element): (m: multiset<Entry>)
    requires c.Shape()
    ensures |m| <= 1
  {
    var d := EpochCheck(c);
    var k := FirstMatch(d.table, d.Locs(e), e);
    if k < WAYS then SlotOf(d, d.Locs(e)[k]) else multiset{}
  }

  /** Apart from ageing, an insertion adds the element, loses at most one entry, and leaves every kept
      element in one of its eight slots. */
  lemma InsertConserves(c: Cache, e: Element)
    requires c.Valid()
    ensures var r := Insert(c, e);
      && r.cache.Valid()
      && Kept(r.cache) + r.dropped + Refreshed(c, e) == Kept(EpochCheck(c)) + multiset{(e, true)}
      && |r.dropped + Refreshed(c, e)| <= 1
      && (forall x, g :: (x, g) in Refreshed(c, e) ==> x == e)
  {
    hide KeptIn, Cache.Settled, Cache.Locs, EpochCheck, Push;
    EpochCheckKeeps(c);
    var d := EpochCheck(c);
    var locs := d.Locs(e);
    var k := FirstMatch(d.table, locs, e);
    if k < WAYS {
      PutKeeps(d, locs[k], e, true);
    } else {
      PushConserves(d, e, true, -1, d.depthLimit);
    }
  }

  /** None of the element's slots may be overwritten. */
  predicate Crowded(c: Cache, e: Element)
    requires c.Shape()
  {
    forall k :: 0 <= k < WAYS ==> !c.collected[c.Locs(e)[k]]
  }

  /** An entry is dropped only after as many displacements as are allowed, in each of which all eight slots of the
      element in hand were taken; it is the one in hand at the end. */
  lemma {:induction false} PushDrops(c: Cache, e: Element, g: bool, last: int, depth: nat) returns (hand: seq<Entry>)
    requires c.Shape() && Push(c, e, g, last, depth).dropped != multiset{}
    ensures |hand| == depth + 1 && hand[0] == (e, g) && Push(c, e, g, last, depth).dropped == multiset{hand[depth]}
    ensures forall j :: 0 <= j < depth ==> Crowded(c, hand[j].0)
    decreases depth
  {
    hide Cache.Locs, FirstOpen, FindLoc, Crowded, PutAt;
    if depth == 0 {
      hand := [(e, g)];
    } else {
      var loc := Victim(c.Locs(e), last);
      NoRoom(c, e, loc, g);
      var d := PutAt(c, loc, e, g);
      var rest := PushDrops(d, c.table[loc], c.epoch[loc], loc, depth - 1);
      hand := [(e, g)] + rest;
      forall j | 0 < j < depth ensures Crowded(c, hand[j].0) {
        assert hand[j] == rest[j - 1];
        SameCrowded(c, d, hand[j].0);
      }
    }
  }

  lemma NoRoom(c: Cache, e: Element, loc: nat, g: bool)
    requires c.Shape() && FirstOpen(c.collected, c.Locs(e)) == WAYS && loc in c.Locs(e)
    ensures Crowded(c, e) && loc < |c.table|
    ensures PutAt(c, loc, e, g).collected == c.collected && |PutAt(c, loc, e, g).table| == |c.table|
  {
    hide Cache.Locs, FirstOpen;
    NoneOpen(c.collected, c.Locs(e), loc);
    assert c.collected[loc := false] == c.collected;
  }

  lemma SameCrowded(c: Cache, d: Cache, e: Element)
    requires c.Shape() && d.Shape() && d.hash == c.hash && |d.table| == |c.table| && d.collected == c.collected
    ensures Crowded(d, e) <==> Crowded(c, e)
  {
    assert d.Locs(e) == c.Locs(e);
  }

  /** An element that has a slot to go to, or stands in one already, is kept after its insertion, in the new
      generation, and nothing is dropped. */
  lemma InsertPlaces(c: Cache, e: Element)
    requires c.Valid() && c.depthLimit > 0
    requires Contains(c, e) || !Crowded(EpochCheck(c), e)
    ensures Insert(c, e).dropped == multiset{} && Kept(Insert(c, e).cache)[(e, true)] > 0
  {
    hide KeptIn, Cache.Settled, Cache.Locs, Push, FirstOpen, FirstMatch;
    var d := EpochCheck(c);
    EpochCheckKeeps(c);
    InsertConserves(c, e);
    SameLocs(c, d, e);
    var r := Insert(c, e);
    if FirstMatch(d.table, d.Locs(e), e) == WAYS {
      if r.dropped != multiset{} {
        var hand := PushDrops(d, e, true, -1, d.depthLimit);
      }
      assert r.dropped == multiset{} && Refreshed(c, e) == multiset{};
      assert (Kept(r.cache) + r.dropped + Refreshed(c, e))[(e, true)] > 0;
    } else {
      PutKeeps(d, d.Locs(e)[FirstMatch(d.table, d.Locs(e), e)], e, true);
      NowKept(d, d.Locs(e)[FirstMatch(d.table, d.Locs(e), e)], e);
    }
  }

  lemma SameLocs(c: Cache, d: Cache, e: Element)
    requires c.Shape() && d.hash == c.hash && d.table == c.table
    ensures d.Locs(e) == c.Locs(e)
  {
  }

  lemma NowKept(c: Cache, loc: nat, e: Element)
    requires c.Shape() && loc < |c.table|
    ensures Kept(PutAt(c, loc, e, true))[(e, true)] > 0
  {
    hide KeptIn;
    var d := PutAt(c, loc, e, true);
    assert (e, true) in SlotOf(d, loc);
    KeptSlot(d, (e, true), |d.table|);
  }

  // ----- the new generation does not grow too large -----

  lemma {:induction false} UnusedPut(c: Cache, loc: nat, e: Element, g: bool, n: nat)
    requires c.Shape() && loc < |c.table| && n <= |c.table|
    ensures Unused(PutAt(c, loc, e, g), n) == Unused(c, n) + (if loc < n && g then 1 else 0)
      - (if loc < n && c.epoch[loc] && !c.collected[loc] then 1 else 0)
    decreases n
  {
    if n > 0 { UnusedPut(c, loc, e, g, n - 1); }
  }

  lemma {:induction false} UnusedPush(c: Cache, e: Element, g: bool, last: int, depth: nat)
    requires c.Shape()
    ensures var d := Push(c, e, g, last, depth).cache;
      && d == c.(table := d.table, collected := d.collected, epoch := d.epoch) && |d.table| == |c.table|
      && Unused(d, |d.epoch|) <= Unused(c, |c.epoch|) + if g then 1 else 0
    decreases depth
  {
    hide Cache.Locs, FirstOpen, FindLoc, Unused;
    if depth > 0 {
      var locs := c.Locs(e);
      var k := FirstOpen(c.collected, locs);
      if k < WAYS {
        UnusedPut(c, locs[k], e, g, |c.table|);
      } else {
        var loc := Victim(locs, last);
        NoneOpen(c.collected, locs, loc);
        UnusedPut(c, loc, e, g, |c.table|);
        UnusedPush(PutAt(c, loc, e, g), c.table[loc], c.epoch[loc], loc, depth - 1);
      }
    }
  }

  /** The entries of the new generation and the insertions until it is looked at again. */
  ghost predicate InTime(c: Cache)
    requires c.Shape()
  {
    Unused(c, |c.epoch|) + c.counter <= c.epochSize + Max(1, c.epochSize / 16)
  }

  lemma {:induction false} UnusedAged(c: Cache, n: nat)
    requires c.Shape() && n <= |c.table|
    ensures Unused(Age(c), n) == 0
    decreases n
  {
    if n > 0 { UnusedAged(c, n - 1); }
  }

  lemma {:induction false} UnusedSame(c: Cache, d: Cache, n: nat)
    requires c.Shape() && d == c.(counter := d.counter) && n <= |c.table|
    ensures Unused(d, n) == Unused(c, n)
    decreases n
  {
    if n > 0 { UnusedSame(c, d, n - 1); }
  }

  lemma InsertInTime(c: Cache, e: Element)
    requires c.Shape() && InTime(c)
    ensures InTime(Insert(c, e).cache) && Insert(c, e).cache.epochSize == c.epochSize
  {
    hide Unused, Cache.Locs, Push, FirstMatch, Age;
    var d := EpochCheck(c);
    if Ages(c) {
      AgeShape(c);
      UnusedAged(c, |c.table|);
      AgeFields(c);
      UnusedSame(Age(c), d, |c.table|);
    } else {
      UnusedSame(c, d, |c.table|);
    }
    assert Unused(d, |d.epoch|) + d.counter + 1 <= d.epochSize + Max(1, d.epochSize / 16);
    var locs := d.Locs(e);
    var k := FirstMatch(d.table, locs, e);
    if k < WAYS {
      UnusedPut(d, locs[k], e, true, |d.table|);
    } else {
      UnusedPush(d, e, true, -1, d.depthLimit);
    }
  }

  lemma AgeFields(c: Cache)
    requires c.Shape()
    ensures Age(c) == c.(collected := Age(c).collected, epoch := Age(c).epoch)
  {
  }

  lemma {:induction false} UnusedErased(c: Cache, i: nat, n: nat)
    requires c.Shape() && i < |c.table| && n <= |c.table|
    ensures Unused(c.(collected := c.collected[i := true]), n) <= Unused(c, n)
    decreases n
  {
    if n > 0 { UnusedErased(c, i, n - 1); }
  }

  // ----- looking up and erasing -----

  predicate Contains(c: Cache, e: Element)
    requires c.Shape()
  {
    FirstMatch(c.table, c.Locs(e), e) < WAYS
  }

  /** Allows the element's slot to be overwritten. */
  function Erase(c: Cache, e: Element): (d: Cache)
    requires c.Shape()
    ensures d.Shape() && d.table == c.table && d.hash == c.hash
  {
    var k := FirstMatch(c.table, c.Locs(e), e);
    if k < WAYS then c.(collected := c.collected[c.Locs(e)[k] := true]) else c
  }

  /** Whatever is kept is found, and what is found stands in one of its slots. */
  lemma ContainsIff(c: Cache, e: Element)
    requires c.Valid()
    ensures Contains(c, e) <==> exists i :: 0 <= i < |c.table| && i in c.Locs(e) && c.table[i] == e
    ensures (e, true) in Kept(c) || (e, false) in Kept(c) ==> Contains(c, e)
  {
    hide KeptIn;
    KeptSlot(c, (e, true), |c.table|);
    KeptSlot(c, (e, false), |c.table|);
    var locs := c.Locs(e);
    var k := FirstMatch(c.table, locs, e);
    assert k < WAYS ==> locs[k] in locs;
  }

  /** What the first of the element's slots that holds it keeps. */
  ghost function FirstKept(c: Cache, e: Element): (m: multiset<Entry>)
    requires c.Shape()
    ensures |m| <= 1 && forall x, g :: (x, g) in m ==> x == e
  {
    var k := FirstMatch(c.table, c.Locs(e), e);
    if k < WAYS then SlotOf(c, c.Locs(e)[k]) else multiset{}
  }

  /** Erasing gives up exactly what the first matching slot keeps, and that slot may be overwritten then; the
      element can still be found. */
  lemma EraseKeeps(c: Cache, e: Element)
    requires c.Valid()
    ensures var d := Erase(c, e);
      && d.Valid() && (Contains(d, e) <==> Contains(c, e))
      && Kept(d) + FirstKept(c, e) == Kept(c) && (Contains(c, e) ==> !Crowded(d, e))
  {
    hide KeptIn;
    var d := Erase(c, e);
    var k := FirstMatch(c.table, c.Locs(e), e);
    assert forall x :: d.Locs(x) == c.Locs(x);
    if k < WAYS { OneSlot(c, d, c.Locs(e)[k], |c.table|); }
    assert Kept(d) + FirstKept(c, e) == Kept(c);
  }

  lemma OneOfTwo(e: Element, g: bool)
    ensures multiset{(e, g)}[(e, true)] + multiset{(e, g)}[(e, false)] == 1
  {
    if g { assert (e, g) == (e, true); } else { assert (e, g) == (e, false); }
  }

  lemma Parts(a: multiset<Entry>, b: multiset<Entry>, c: multiset<Entry>, x: Entry)
    requires a + b == c
    ensures a[x] + b[x] == c[x]
  {
  }

  lemma KeptFound(c: Cache, e: Element)
    requires c.Valid() && Kept(c)[(e, true)] + Kept(c)[(e, false)] > 0
    ensures FirstMatch(c.table, c.Locs(e), e) < WAYS
  {
    hide KeptIn, Cache.Locs;
    assert (e, true) in Kept(c) || (e, false) in Kept(c);
    ContainsIff(c, e);
  }

  /** An element that is kept once is not kept any more after it has been erased. */
  lemma ErasedOnce(c: Cache, e: Element)
    requires c.Valid() && Kept(c)[(e, true)] + Kept(c)[(e, false)] == 1
    requires forall k :: 0 <= k < WAYS && c.table[c.Locs(e)[k]] == e ==> !c.collected[c.Locs(e)[k]]
    ensures Kept(Erase(c, e))[(e, true)] + Kept(Erase(c, e))[(e, false)] == 0
  {
    hide KeptIn, Cache.Locs, FirstMatch;
    EraseKeeps(c, e);
    var d, m := Erase(c, e), FirstKept(c, e);
    KeptFound(c, e);
    var k := FirstMatch(c.table, c.Locs(e), e);
    assert m == multiset{(e, c.epoch[c.Locs(e)[k]])};
    Parts(Kept(d), m, Kept(c), (e, true));
    Parts(Kept(d), m, Kept(c), (e, false));
    OneOfTwo(e, c.epoch[c.Locs(e)[k]]);
  }

  // ----- whole runs -----

  datatype Op = InsertOp(e: Element) | LookupOp(e: Element, erase: bool)

  function Step(c: Cache, op: Op): (d: Cache)
    requires c.Shape()
    ensures d.Shape()
  {
    match op
    case InsertOp(e) => Insert(c, e).cache
    case LookupOp(e, erase) => if erase then Erase(c, e) else c
  }

  function Run(c: Cache, ops: seq<Op>): (d: Cache)
    requires c.Shape()
    ensures d.Shape()
    decreases |ops|
  {
    if ops == [] then c else Run(Step(c, ops[0]), ops[1..])
  }

  predicate AgesAt(c: Cache, op: Op)
    requires c.Shape()
  {
    op.InsertOp? && Ages(c)
  }

  /** How often a run ages the generations. */
  function Ageings(c: Cache, ops: seq<Op>): nat
    requires c.Shape()
    decreases |ops|
  {
    if ops == [] then 0 else (if AgesAt(c, ops[0]) then 1 else 0) + Ageings(Step(c, ops[0]), ops[1..])
  }

  /** The step neither erases x nor drops it for lack of room. */
  predicate Spares(c: Cache, op: Op, x: Element)
    requires c.Shape()
  {
    match op
    case InsertOp(e) => forall g :: (x, g) !in Insert(c, e).dropped
    case LookupOp(e, erase) => !(erase && e == x)
  }

  predicate AllSpare(c: Cache, ops: seq<Op>, x: Element)
    requires c.Shape()
    decreases |ops|
  {
    ops == [] || (Spares(c, ops[0], x) && AllSpare(Step(c, ops[0]), ops[1..], x))
  }

  ghost predicate Has(c: Cache, x: Element, g: bool)
    requires c.Shape()
  {
    (x, g) in Kept(c)
  }

  lemma StepValid(c: Cache, op: Op)
    requires c.Valid()
    ensures Step(c, op).Valid()
  {
    hide Insert, Erase, Cache.Settled, Cache.Locs;
    match op
    case InsertOp(e) => InsertConserves(c, e);
    case LookupOp(e, erase) => if erase { EraseKeeps(c, e); }
  }

  lemma StepSpares(c: Cache, op: Op, x: Element)
    requires c.Valid() && Spares(c, op, x)
    ensures var d := Step(c, op);
      && (!AgesAt(c, op) && Has(c, x, true) ==> Has(d, x, true))
      && (!AgesAt(c, op) && Has(c, x, false) ==> Has(d, x, true) || Has(d, x, false))
      && (AgesAt(c, op) && Has(c, x, true) ==> Has(d, x, true) || Has(d, x, false))
  {
    hide Insert, Erase, Cache.Settled, Cache.Locs, KeptIn, EpochCheck, Refreshed;
    match op
    case InsertOp(e) =>
      EpochCheckKeeps(c);
      InsertConserves(c, e);
      InsertSpares(Kept(Insert(c, e).cache), Insert(c, e).dropped, Refreshed(c, e), Kept(EpochCheck(c)), e, x);
    case LookupOp(e, erase) => if erase { EraseKeeps(c, e); }
  }

  lemma InsertSpares(after: multiset<Entry>, dropped: multiset<Entry>, old_: multiset<Entry>,
                     before: multiset<Entry>, e: Element, x: Element)
    requires after + dropped + old_ == before + multiset{(e, true)}
    requires (forall g :: (x, g) !in dropped) && (forall y, g :: (y, g) in old_ ==> y == e) && |old_| <= 1
    ensures (x, true) in before ==> (x, true) in after
    ensures (x, false) in before ==> (x, false) in after || (x, true) in after
  {
    forall g ensures after[(x, g)] + old_[(x, g)] == before[(x, g)] + multiset{(e, true)}[(x, g)] {
      assert (after + dropped + old_)[(x, g)] == (before + multiset{(e, true)})[(x, g)];
    }
    if x == e { AtMostOne(old_, (x, true), (x, false)); } else { assert old_[(x, true)] == 0 && old_[(x, false)] == 0; }
  }

  lemma AtMostOne(m: multiset<Entry>, a: Entry, b: Entry)
    requires |m| <= 1 && a != b
    ensures m[a] + m[b] <= 1
  {
    assert m[a] >= 1 && m[b] >= 1 ==> m == multiset{a, b} + (m - multiset{a, b});
    assert m[a] >= 2 ==> m == multiset{a, a} + (m - multiset{a, a});
    assert m[b] >= 2 ==> m == multiset{b, b} + (m - multiset{b, b});
  }

  /** In every run, the new generation stays within a sixteenth above the size at which it ages. */
  lemma {:induction false} RunInTime(c: Cache, ops: seq<Op>)
    requires c.Shape() && InTime(c)
    ensures InTime(Run(c, ops)) && Run(c, ops).epochSize == c.epochSize
    ensures Unused(Run(c, ops), |Run(c, ops).epoch|) <= c.epochSize + Max(1, c.epochSize / 16)
    decreases |ops|
  {
    hide Unused, Cache.Locs, Insert, FirstMatch;
    if ops != [] {
      match ops[0] {
        case InsertOp(e) => InsertInTime(c, e);
        case LookupOp(e, erase) =>
          var k := FirstMatch(c.table, c.Locs(e), e);
          if erase && k < WAYS { UnusedErased(c, c.Locs(e)[k], |c.table|); }
      }
      RunInTime(Step(c, ops[0]), ops[1..]);
    }
  }

  /** An element just inserted outlives one ageing: unless erased or dropped for lack of room, it is
      kept until the generations age a second time. */
  lemma {:induction false} SurvivesOneAgeing(c: Cache, ops: seq<Op>, x: Element)
    requires c.Valid() && AllSpare(c, ops, x)
    requires (Has(c, x, true) && Ageings(c, ops) <= 1) || (Has(c, x, false) && Ageings(c, ops) == 0)
    ensures Run(c, ops).Valid()
    ensures Has(Run(c, ops), x, true) || Has(Run(c, ops), x, false)
    ensures Contains(Run(c, ops), x)
    decreases |ops|
  {
    hide Step, Has, AgesAt, Contains, Spares;
    if ops == [] {
      HasContains(c, x);
    } else {
      StepValid(c, ops[0]);
      StepSpares(c, ops[0], x);
      SurvivesOneAgeing(Step(c, ops[0]), ops[1..], x);
    }
  }

  lemma HasContains(c: Cache, x: Element)
    requires c.Valid() && (Has(c, x, true) || Has(c, x, false))
    ensures Contains(c, x)
  {
    ContainsIff(c, x);
  }

  lemma StepFades(c: Cache, op: Op, x: Element)
    requires c.Valid() && op != InsertOp(x)
    ensures var d := Step(c, op);
      && (!Has(c, x, true) ==> !Has(d, x, true))
      && (AgesAt(c, op) ==> !Has(d, x, true))
      && (!AgesAt(c, op) && !Has(c, x, false) ==> !Has(d, x, false))
      && (AgesAt(c, op) && !Has(c, x, true) ==> !Has(d, x, false))
  {
    hide Insert, Erase, Cache.Settled, Cache.Locs, KeptIn, EpochCheck, Refreshed;
    match op
    case InsertOp(e) =>
      EpochCheckKeeps(c);
      InsertConserves(c, e);
      forall g ensures Kept(Insert(c, e).cache)[(x, g)] <= Kept(EpochCheck(c))[(x, g)] {
        var r := Insert(c, e);
        assert (Kept(r.cache) + r.dropped + Refreshed(c, e))[(x, g)] ==
            (Kept(EpochCheck(c)) + multiset{(e, true)})[(x, g)];
      }
      assert forall g :: Has(Insert(c, e).cache, x, g) ==> Kept(EpochCheck(c))[(x, g)] > 0;
    case LookupOp(e, erase) => if erase { EraseKeeps(c, e); }
  }

  /** Without being inserted again, no element is still kept after the second ageing. */
  lemma {:induction false} GoneAtSecondAgeing(c: Cache, ops: seq<Op>, x: Element)
    requires c.Valid() && InsertOp(x) !in ops
    requires Ageings(c, ops) >= 2 || (!Has(c, x, true) && (Ageings(c, ops) >= 1 || !Has(c, x, false)))
    ensures !Has(Run(c, ops), x, true) && !Has(Run(c, ops), x, false)
    decreases |ops|
  {
    hide Step, Has, AgesAt;
    if ops != [] {
      StepValid(c, ops[0]);
      StepFades(c, ops[0], x);
      GoneAtSecondAgeing(Step(c, ops[0]), ops[1..], x);
    }
  }

  /** Nothing having been displaced yet, it is the second of the eight slots that is taken. */
  lemma VictimFirst(locs: seq<nat>)
    requires |locs| == WAYS
    ensures Victim(locs, -1) == locs[1]
  {
    hide FindLoc;
    var k := FindLoc(locs, -1);
    assert k == WAYS;
  }

  /** Afterwards it is the one behind the slot just filled. */
  lemma VictimNext(locs: seq<nat>, k: nat)
    requires |locs| == WAYS && k < WAYS && forall j :: 0 <= j < k ==> locs[j] != locs[k]
    ensures Victim(locs, locs[k]) == locs[(k + 1) % WAYS]
  {
    hide FindLoc;
    var f := FindLoc(locs, locs[k]);
    assert f == k;
  }
}
