/** The cuckoo cache as an object: an array of elements, bit-packed collection flags, and epoch flags,
    all changed in place. */
module CuckooTable {
  import opened Bits
  import opened Cuckoo

  // ----- bit-packed flags -----

  class BitFlags {
    const mem: array<bv8>

    /** All flags start out set. */
    constructor (size: nat)
      ensures fresh(mem) && size <= 8 * mem.Length
      ensures forall s :: 0 <= s < size ==> IsSet(s)
    {
      mem := new bv8[(size + 7) / 8](_ => 0xFF);
      new;
      forall s | 0 <= s < size ensures IsSet(s) { AllOnes(s % 8); }
    }

    predicate IsSet(s: nat)
      reads mem
    {
      s < 8 * mem.Length && Test(mem[s / 8], s % 8)
    }

    method Set(s: nat)
      requires s < 8 * mem.Length
      modifies mem
      ensures forall t: nat :: t < 8 * mem.Length ==> (IsSet(t) <==> t == s || old(IsSet(t)))
    {
      hide Test, Mask;
      ghost var was := mem[s / 8];
      mem[s / 8] := mem[s / 8] | Mask(s % 8);
      forall t: nat | t < 8 * mem.Length ensures IsSet(t) <==> t == s || old(IsSet(t)) {
        SetTest(was, s % 8, t % 8);
      }
    }

    method Unset(s: nat)
      requires s < 8 * mem.Length
      modifies mem
      ensures forall t: nat :: t < 8 * mem.Length ==> (IsSet(t) <==> t != s && old(IsSet(t)))
    {
      hide Test, Mask;
      ghost var was := mem[s / 8];
      mem[s / 8] := mem[s / 8] & !Mask(s % 8);
      forall t: nat | t < 8 * mem.Length ensures IsSet(t) <==> t != s && old(IsSet(t)) {
        ClearTest(was, s % 8, t % 8);
      }
    }
  }

  // ----- the cache -----

  class CacheTable {
    const hash: Hash
    const table: array<Element>
    const flags: BitFlags
    const epochFlags: array<bool>
    const epochSize: nat
    const depthLimit: nat
    var counter: nat

    ghost predicate Shape()
      reads this
    {
      && table.Length > 0 && epochFlags.Length == table.Length && table.Length <= 8 * flags.mem.Length
      && (table as object) != flags.mem && (epochFlags as object) != flags.mem && (table as object) != epochFlags
    }

    ghost function State(): (c: Cache)
      requires Shape()
      reads this, table, flags, flags.mem, epochFlags
      ensures c.Shape()
    {
      Cache(hash, table[..], seq(table.Length, i requires 0 <= i < table.Length reads flags,
          flags.mem => flags.IsSet(i)),
            epochFlags[..], counter, epochSize, depthLimit)
    }

    /** A cache of 2^depth slots, all of which may be overwritten. */
    constructor (hash: Hash, size: nat, depth: nat)
      requires size > 0
      ensures Shape() && State().Valid() && Kept(State()) == multiset{}
      ensures fresh(table) && fresh(flags) && fresh(flags.mem) && fresh(epochFlags)
      ensures epochSize == Max(1, 45 * size / 100) && table.Length == size && depthLimit == depth
      ensures InTime(State())
    {
      this.hash := hash;
      table := new Element[size](_ => 0);
      flags := new BitFlags(size);
      epochFlags := new bool[size](_ => false);
      epochSize := Max(1, 45 * size / 100);
      counter := Max(1, 45 * size / 100);
      depthLimit := depth;
      new;
      NothingKept(State(), size);
      NothingUnused(State(), size);
    }

    method AllowErase(n: nat)
      requires Shape() && n < table.Length
      modifies flags.mem
      ensures State() == old(State()).(collected := old(State()).collected[n := true])
    {
      flags.Set(n);
      assert State().collected == old(State()).collected[n := true];
    }

    method PleaseKeep(n: nat)
      requires Shape() && n < table.Length
      modifies flags.mem
      ensures State() == old(State()).(collected := old(State()).collected[n := false])
    {
      flags.Unset(n);
      assert State().collected == old(State()).collected[n := false];
    }

    /** Stores an entry in a slot and keeps it. */
    method Store(loc: nat, e: Element, g: bool)
      requires Shape() && loc < table.Length
      modifies table, flags.mem, epochFlags
      ensures State() == PutAt(old(State()), loc, e, g)
    {
      table[loc] := e;
      assert table[..] == old(table[..])[loc := e] && State().collected == old(State()).collected;
      PleaseKeep(loc);
      epochFlags[loc] := g;
      assert epochFlags[..] == old(epochFlags[..])[loc := g];
      assert State().collected == old(State()).collected[loc := false];
    }

    /** Exchanges the entry in hand with the one in a slot that is kept. */
    method Swap(loc: nat, e: Element, g: bool) returns (e1: Element, g1: bool)
      requires Shape() && loc < table.Length && !State().collected[loc]
      modifies table, epochFlags
      ensures Shape() && State() == PutAt(old(State()), loc, e, g)
      ensures e1 == old(State()).table[loc] && g1 == old(State()).epoch[loc]
    {
      SwapKeepsSlot(State(), loc, e, g);
      e1 := table[loc];
      table[loc] := e;
      g1 := epochFlags[loc];
      epochFlags[loc] := g;
      assert table[..] == old(table[..])[loc := e] && epochFlags[..] == old(epochFlags[..])[loc := g];
      assert State().collected == old(State()).collected;
    }

    method FindMatch(locs: seq<nat>, e: Element) returns (k: nat)
      requires Shape() && forall j :: 0 <= j < |locs| ==> locs[j] < table.Length
      ensures k == FirstMatch(State().table, locs, e)
    {
      hide FirstMatch;
      k := 0;
      while k < |locs| && table[locs[k]] != e
        invariant 0 <= k <= |locs| && forall j :: 0 <= j < k ==> table[locs[j]] != e
      {
        k := k + 1;
      }
      ghost var f := FirstMatch(State().table, locs, e);
      assert k == f;
    }

    method FindOpen(locs: seq<nat>) returns (k: nat)
      requires Shape() && forall j :: 0 <= j < |locs| ==> locs[j] < table.Length
      ensures k == FirstOpen(State().collected, locs)
    {
      hide FirstOpen;
      k := 0;
      while k < |locs| && !flags.IsSet(locs[k])
        invariant 0 <= k <= |locs| && forall j :: 0 <= j < k ==> !flags.IsSet(locs[j])
      {
        k := k + 1;
      }
      ghost var f := FirstOpen(State().collected, locs);
      assert forall j :: 0 <= j < |locs| ==> State().collected[locs[j]] == flags.IsSet(locs[j]);
      assert k == f;
    }

    method CheckEpoch()
      requires Shape()
      modifies this`counter, flags.mem, epochFlags
      ensures Shape() && State() == EpochCheck(old(State()))
    {
      ghost var c := State();
      if counter != 0 {
        counter := counter - 1;
        return;
      }
      var unused := 0;
      for i := 0 to table.Length
        invariant State() == c && unused == Unused(c, i)
      {
        if epochFlags[i] && !flags.IsSet(i) { unused := unused + 1; }
      }
      if unused >= epochSize {
        for i := 0 to table.Length
          invariant Shape() && table[..] == c.table && counter == c.counter
          invariant forall j :: 0 <= j < table.Length ==>
            epochFlags[j] == (j >= i && c.epoch[j]) && flags.IsSet(j) == (c.collected[j] || (j < i && !c.epoch[j]))
        {
          if epochFlags[i] {
            epochFlags[i] := false;
          } else {
            flags.Set(i);
          }
        }
        counter := epochSize;
        assert State().epoch == Age(c).epoch && State().collected == Age(c).collected;
      } else {
        counter := Max(1, Max(epochSize / 16, epochSize - unused));
      }
    }

    method ComputeHashes(e: Element) returns (locs: seq<nat>)
      requires Shape()
      ensures locs == State().Locs(e)
    {
      locs := seq(WAYS, k requires 0 <= k < WAYS reads this => hash.select(e, k) % table.Length);
    }

    method InsertElement(element: Element)
      requires Shape()
      modifies this`counter, table, flags.mem, epochFlags
      ensures Shape() && State() == Insert(old(State()), element).cache
    {
      hide PutAt, Push, Cache.Locs, EpochCheck, FirstMatch, FirstOpen, FindLoc;
      CheckEpoch();
      ghost var d := State();
      var locs := ComputeHashes(element);
      var k := FindMatch(locs, element);
      if k < WAYS {
        Store(locs[k], element, true);
      } else {
        Displace(element);
      }
    }

    /** The element goes into an open slot, or displaces another, which goes on in its stead. */
    method Displace(element: Element)
      requires Shape()
      modifies table, flags.mem, epochFlags
      ensures Shape() && State() == Push(old(State()), element, true, -1, depthLimit).cache
    {
      hide PutAt, Push, Cache.Locs, FirstOpen, FindLoc;
      ghost var want := Push(State(), element, true, -1, depthLimit);
      var e: Element, lastLoc: int, lastEpoch := element, -1, true;
      var locs := ComputeHashes(e);
      var depth := 0;
      while depth < depthLimit
        invariant 0 <= depth <= depthLimit && Shape() && locs == State().Locs(e)
        invariant want == Push(State(), e, lastEpoch, lastLoc, depthLimit - depth)
      {
        ghost var c := State();
        var k := FindOpen(locs);
        if k < WAYS {
          PushPlaces(c, e, lastEpoch, lastLoc, depthLimit - depth);
          Store(locs[k], e, lastEpoch);
          return;
        }
        PushMoves(c, e, lastEpoch, lastLoc, depthLimit - depth);
        var at := IndexOf(locs, lastLoc);
        lastLoc := locs[(1 + at) % WAYS];
        e, lastEpoch := Swap(lastLoc, e, lastEpoch);
        locs := ComputeHashes(e);
        depth := depth + 1;
      }
      PushEnds(State(), e, lastEpoch, lastLoc);
    }

    method ContainsElement(e: Element, erase: bool) returns (found: bool)
      requires Shape()
      modifies flags.mem
      ensures Shape() && found == Contains(old(State()), e)
      ensures State() == if erase then Erase(old(State()), e) else old(State())
    {
      hide Cache.Locs, FirstMatch;
      var locs := ComputeHashes(e);
      var k := FindMatch(locs, e);
      if k < WAYS {
        if erase { AllowErase(locs[k]); }
        return true;
      }
      return false;
    }
  }

  method IndexOf(locs: seq<nat>, loc: int) returns (k: nat)
    ensures k == FindLoc(locs, loc)
  {
    k := 0;
    while k < |locs| && locs[k] != loc
      invariant k <= |locs| && forall j :: 0 <= j < k ==> locs[j] != loc
    {
      k := k + 1;
    }
    var f := FindLoc(locs, loc);
    assert k == f;
  }

  lemma PushEnds(c: Cache, e: Element, g: bool, last: int)
    requires c.Shape()
    ensures Push(c, e, g, last, 0).cache == c
  {
  }

  lemma PushPlaces(c: Cache, e: Element, g: bool, last: int, depth: nat)
    requires c.Shape() && depth > 0 && FirstOpen(c.collected, c.Locs(e)) < WAYS
    ensures Push(c, e, g, last, depth) == Outcome(PutAt(c, c.Locs(e)[FirstOpen(c.collected, c.Locs(e))], e, g),
        multiset{})
  {
  }

  lemma PushMoves(c: Cache, e: Element, g: bool, last: int, depth: nat)
    requires c.Shape() && depth > 0 && FirstOpen(c.collected, c.Locs(e)) == WAYS
    ensures var loc := Victim(c.Locs(e), last);
      && loc < |c.table| && !c.collected[loc]
      && Push(c, e, g, last, depth) == Push(PutAt(c, loc, e, g), c.table[loc], c.epoch[loc], loc, depth - 1)
  {
    hide PutAt, FirstOpen, Cache.Locs, FindLoc;
    NoneOpen(c.collected, c.Locs(e), Victim(c.Locs(e), last));
  }

  lemma SwapKeepsSlot(c: Cache, loc: nat, e: Element, g: bool)
    requires c.Shape() && loc < |c.table| && !c.collected[loc]
    ensures PutAt(c, loc, e, g) == c.(table := c.table[loc := e], epoch := c.epoch[loc := g])
  {
    assert c.collected[loc := false] == c.collected;
  }

  lemma {:induction false} NothingKept(c: Cache, n: nat)
    requires c.Shape() && n <= |c.table| && forall i :: 0 <= i < |c.table| ==> c.collected[i]
    ensures KeptIn(c, n) == multiset{}
    decreases n
  {
    if n > 0 { NothingKept(c, n - 1); }
  }

  lemma {:induction false} NothingUnused(c: Cache, n: nat)
    requires c.Shape() && n <= |c.table| && forall i :: 0 <= i < |c.table| ==> c.collected[i]
    ensures Unused(c, n) == 0
    decreases n
  {
    if n > 0 { NothingUnused(c, n - 1); }
  }
}
