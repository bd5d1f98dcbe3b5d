/** Compact blocks (BIP 152): a block announced by short ids is rebuilt from transactions at hand. */
module CompactBlock {
  import opened Options

  /** Blocks with more transactions than this are refused. */
  const MAX_TRANSACTIONS: nat := 1000000 / 10

  const U16: nat := 0x1_0000

  datatype Tx = Tx(hash: nat, witnessHash: nat, isNull: bool)

  /** A transaction sent along, with its distance from the previous one. */
  datatype Prefilled = Prefilled(index: nat, tx: Tx)

  /** The announcement; the selector is the keyed hash that the header and nonce determine. */
  datatype Announcement = Announcement(headerNull: bool, selector: nat -> nat, shortIds: seq<nat>,
      prefilled: seq<Prefilled>)
  {
    function Count(): nat { |shortIds| + |prefilled| }
  }

  /** A transaction of the pool under the hash that is used for short ids. */
  datatype PoolTx = PoolTx(hash: nat, tx: Tx)

  /** The last one is no answer: it stands for a search that goes round for ever. */
  datatype Status = Ok | Invalid | Failed | CheckBlockFailed | Endless

  type Slots = seq<Option<Tx>>

  // ----- where transactions go -----

  /** The slot of prefilled transaction i, from the distances. */
  function SlotOf(p: seq<Prefilled>, i: nat): (s: nat)
    requires i < |p|
    ensures s >= i
  {
    (if i == 0 then 0 else SlotOf(p, i - 1) + 1) + p[i].index
  }

  /** Prefilled transaction i is acceptable. */
  predicate Acceptable(c: Announcement, i: nat)
    requires i < |c.prefilled|
  {
    && !c.prefilled[i].tx.isNull
    && SlotOf(c.prefilled, i) < U16
    && SlotOf(c.prefilled, i) <= |c.shortIds| + i
  }

  /** The announcement says for every slot where its transaction comes from. */
  predicate WellFormed(c: Announcement)
  {
    && !c.headerNull && 0 < c.Count() <= MAX_TRANSACTIONS
    && forall i :: 0 <= i < |c.prefilled| ==> Acceptable(c, i)
  }

  lemma {:induction false} SlotsIncrease(p: seq<Prefilled>, i: nat, j: nat)
    requires i < j < |p|
    ensures SlotOf(p, i) < SlotOf(p, j)
    decreases j
  {
    if i < j - 1 { SlotsIncrease(p, i, j - 1); }
  }

  /** The slots after the first i prefilled transactions have been put in place. */
  function Filled(c: Announcement, i: nat): (r: Slots)
    requires i <= |c.prefilled| && forall k :: 0 <= k < i ==> Acceptable(c, k)
    ensures |r| == c.Count()
    ensures forall j :: 0 <= j < |r| && r[j].Some? ==>
      exists k :: 0 <= k < i && SlotOf(c.prefilled, k) == j && r[j].value == c.prefilled[k].tx
  {
    if i == 0 then seq(c.Count(), _ => None) else
      assert Acceptable(c, i - 1);
      Filled(c, i - 1)[SlotOf(c.prefilled, i - 1) := Some(c.prefilled[i - 1].tx)]
  }

  lemma {:induction false} FilledAt(c: Announcement, i: nat, k: nat)
    requires k < i <= |c.prefilled| && forall k :: 0 <= k < i ==> Acceptable(c, k)
    ensures SlotOf(c.prefilled, k) < c.Count() && Filled(c, i)[SlotOf(c.prefilled, k)] == Some(c.prefilled[k].tx)
    decreases i
  {
    assert Acceptable(c, i - 1);
    if k < i - 1 {
      FilledAt(c, i - 1, k);
      SlotsIncrease(c.prefilled, k, i - 1);
    }
  }

  /** The empty slots below n, in order. */
  function Free(a: Slots, n: nat): (r: seq<nat>)
    requires n <= |a|
    ensures |r| <= n && forall k :: 0 <= k < |r| ==> r[k] < n && a[r[k]].None?
  {
    if n == 0 then [] else Free(a, n - 1) + if a[n - 1].None? then [n - 1] else []
  }

  lemma {:induction false} FreeOrdered(a: Slots, n: nat, i: nat, j: nat)
    requires n <= |a| && i < j < |Free(a, n)|
    ensures Free(a, n)[i] < Free(a, n)[j]
    decreases n
  {
    if j < |Free(a, n - 1)| { FreeOrdered(a, n - 1, i, j); }
  }

  lemma {:induction false} FreePrefix(a: Slots, m: nat, n: nat)
    requires m <= n <= |a|
    ensures |Free(a, m)| <= |Free(a, n)| && Free(a, n)[..|Free(a, m)|] == Free(a, m)
    decreases n
  {
    if m < n { FreePrefix(a, m, n - 1); }
  }

  lemma {:induction false} FreeHas(a: Slots, n: nat, j: nat)
    requires j < n <= |a| && a[j].None?
    ensures |Free(a, j)| < |Free(a, n)| && Free(a, n)[|Free(a, j)|] == j
  {
    FreePrefix(a, j + 1, n);
  }

  lemma {:induction false} FillOne(a: Slots, s: nat, t: Tx, n: nat)
    requires s < |a| && a[s].None? && n <= |a|
    ensures |Free(a[s := Some(t)], n)| == |Free(a, n)| - (if s < n then 1 else 0)
    decreases n
  {
    if n > 0 { FillOne(a, s, t, n - 1); }
  }

  /** As many slots stay empty as there are short ids. */
  lemma {:induction false} FreeCount(c: Announcement, i: nat)
    requires i <= |c.prefilled| && forall k :: 0 <= k < i ==> Acceptable(c, k)
    ensures |Free(Filled(c, i), c.Count())| == c.Count() - i
    decreases i
  {
    hide Free, SlotOf;
    if i == 0 {
      AllFree(Filled(c, 0), c.Count());
    } else {
      FreeCount(c, i - 1);
      assert Acceptable(c, i - 1);
      var s, before := SlotOf(c.prefilled, i - 1), Filled(c, i - 1);
      if before[s].Some? {
        var k :| 0 <= k < i - 1 && SlotOf(c.prefilled, k) == s;
        SlotsIncrease(c.prefilled, k, i - 1);
      }
      FillOne(before, s, c.prefilled[i - 1].tx, c.Count());
    }
  }

  lemma {:induction false} AllFree(a: Slots, n: nat)
    requires n <= |a| && forall j :: 0 <= j < |a| ==> a[j].None?
    ensures |Free(a, n)| == n
    decreases n
  {
    if n > 0 { AllFree(a, n - 1); }
  }

  /** The slots that the short ids stand for, in order. */
  function ShortSlots(c: Announcement): (r: seq<nat>)
    requires WellFormed(c)
    ensures |r| <= c.Count() && forall k :: 0 <= k < |r| ==> r[k] < c.Count()
  {
    Free(Filled(c, |c.prefilled|), c.Count())
  }

  predicate NotPrefilled(c: Announcement, s: nat)
  {
    forall k :: 0 <= k < |c.prefilled| ==> SlotOf(c.prefilled, k) != s
  }

  lemma ShortSlotIff(c: Announcement, s: nat)
    requires WellFormed(c) && s < c.Count()
    ensures s in ShortSlots(c) <==> NotPrefilled(c, s)
  {
    hide Free, Filled, SlotOf, Acceptable;
    var n, a, r := |c.prefilled|, Filled(c, |c.prefilled|), ShortSlots(c);
    if a[s].None? {
      FreeHas(a, c.Count(), s);
      assert r[|Free(a, s)|] == s;
      forall k | 0 <= k < n ensures SlotOf(c.prefilled, k) != s { FilledAt(c, n, k); }
    } else {
      var k :| 0 <= k < n && SlotOf(c.prefilled, k) == s;
      assert forall j :: 0 <= j < |r| ==> a[r[j]].None?;
    }
  }

  /** Short ids and the slots that are not prefilled correspond one to one. */
  lemma ShortSlotsExact(c: Announcement)
    requires WellFormed(c)
    ensures var r := ShortSlots(c);
      && |r| == |c.shortIds|
      && (forall i, j :: 0 <= i < j < |r| ==> r[i] < r[j])
      && (forall s: nat :: s < c.Count() ==> (s in r <==> NotPrefilled(c, s)))
  {
    hide Free, Filled, SlotOf, Acceptable;
    var n, a := |c.prefilled|, Filled(c, |c.prefilled|);
    var r := ShortSlots(c);
    FreeCount(c, n);
    forall i, j | 0 <= i < j < |r| ensures r[i] < r[j] { FreeOrdered(a, c.Count(), i, j); }
    forall s: nat | s < c.Count() ensures s in r <==> NotPrefilled(c, s) { ShortSlotIff(c, s); }
  }

  /** Slot numbers as they are kept: 16 bits of them. */
  function Truncated(slots: seq<nat>): (r: seq<nat>)
    ensures |r| == |slots| && forall k :: 0 <= k < |r| ==> r[k] == slots[k] % U16
  {
    seq(|slots|, k requires 0 <= k < |slots| => slots[k] % U16)
  }

  lemma TruncatedSame(slots: seq<nat>, n: nat)
    requires n <= U16 && forall k :: 0 <= k < |slots| ==> slots[k] < n
    ensures Truncated(slots) == slots
  {
  }

  /** Slot numbers are kept in 16 bits: they are right exactly when the block has at most 65,536 transactions. */
  lemma SlotNumbersFit(c: Announcement)
    requires WellFormed(c)
    ensures Truncated(ShortSlots(c)) == ShortSlots(c) <==> c.Count() <= U16
  {
    hide Free, Filled, SlotOf, ShortSlots;
    ShortSlotsExact(c);
    if c.Count() > U16 {
      var s := c.Count() - 1;
      assert forall k :: 0 <= k < |c.prefilled| ==> Acceptable(c, k) && SlotOf(c.prefilled, k) != s;
      assert s in ShortSlots(c);
      var k :| 0 <= k < |ShortSlots(c)| && ShortSlots(c)[k] == s;
      assert ShortSlots(c)[k] % U16 < U16;
    }
  }

  // ----- what the pool contributes -----

  /** What is known about the transaction of a slot: nothing, one candidate, or more than one. */
  datatype Fate = Unseen | Holding(tx: Tx) | Ambiguous
  {
    function Shown(): Option<Tx> { if Holding? then Some(tx) else None }

    /** What a slot shows that held something before. */
    function Over(before: Option<Tx>): Option<Tx> { if Unseen? then before else Shown() }
  }

  function PoolStep(f: Fate, t: Tx): Fate { if f.Unseen? then Holding(t) else Ambiguous }

  /** Among the extra transactions, the same transaction again is no contradiction. */
  function ExtraStep(f: Fate, t: Tx): Fate
  {
    match f
    case Unseen => Holding(t)
    case Holding(u) => if u.witnessHash != t.witnessHash then Ambiguous else f
    case Ambiguous => Ambiguous
  }

  function PoolFate(select: nat -> nat, pool: seq<PoolTx>, id: nat): Fate
  {
    if pool == [] then Unseen else
      var f, e := PoolFate(select, pool[..|pool| - 1], id), pool[|pool| - 1];
      if select(e.hash) == id then PoolStep(f, e.tx) else f
  }

  function ExtraFate(select: nat -> nat, f0: Fate, extra: seq<PoolTx>, id: nat): Fate
  {
    if extra == [] then f0 else
      var f, e := ExtraFate(select, f0, extra[..|extra| - 1], id), extra[|extra| - 1];
      if select(e.hash) == id then ExtraStep(f, e.tx) else f
  }

  /** What is known of an id after both scans. */
  function FateOf(select: nat -> nat, pool: seq<PoolTx>, extra: seq<PoolTx>, id: nat): Fate
  {
    ExtraFate(select, PoolFate(select, pool, id), extra, id)
  }

  /** A candidate is one of the transactions at hand that have the short id. */
  lemma {:induction false} PoolCandidate(select: nat -> nat, pool: seq<PoolTx>, id: nat)
    ensures var f := PoolFate(select, pool, id);
      f.Holding? ==> exists e :: e in pool && select(e.hash) == id && e.tx == f.tx
    decreases |pool|
  {
    if pool != [] {
      var k := |pool| - 1;
      PoolCandidate(select, pool[..k], id);
      assert pool[k] in pool;
      assert forall e :: e in pool[..k] ==> e in pool;
    }
  }

  lemma {:induction false} ExtraCandidate(select: nat -> nat, f0: Fate, extra: seq<PoolTx>, id: nat)
    ensures var f := ExtraFate(select, f0, extra, id);
      f.Holding? ==> f == f0 || exists e :: e in extra && select(e.hash) == id && e.tx == f.tx
    decreases |extra|
  {
    if extra != [] {
      var k := |extra| - 1;
      ExtraCandidate(select, f0, extra[..k], id);
      assert extra[k] in extra;
      assert forall e :: e in extra[..k] ==> e in extra;
    }
  }

  /** How many transactions of the pool have a short id. */
  function Matches(select: nat -> nat, pool: seq<PoolTx>, id: nat): nat
  {
    if pool == [] then 0
    else Matches(select, pool[..|pool| - 1], id) + if select(pool[|pool| - 1].hash) == id then 1 else 0
  }

  /** A slot is filled from the pool exactly when one transaction, and only one, has its short id. */
  lemma {:induction false} PoolFateIff(select: nat -> nat, pool: seq<PoolTx>, id: nat)
    ensures PoolFate(select, pool, id).Unseen? <==> Matches(select, pool, id) == 0
    ensures PoolFate(select, pool, id).Holding? <==> Matches(select, pool, id) == 1
    decreases |pool|
  {
    if pool != [] { PoolFateIff(select, pool[..|pool| - 1], id); }
  }

  /** What the counter of extra transactions gains and loses over a slot: one for a slot that only the
      extra transactions fill, minus one for a candidate of the pool that they contradict. */
  function Net(f0: Fate, f: Fate): int
  {
    if f0.Unseen? && f.Holding? then 1 else if f0.Holding? && f.Ambiguous? then -1 else 0
  }

  function NetSum(fates0: seq<Fate>, fates: seq<Fate>, n: nat): int
    requires n <= |fates0| == |fates|
  {
    if n == 0 then 0 else NetSum(fates0, fates, n - 1) + Net(fates0[n - 1], fates[n - 1])
  }

  lemma {:induction false} NetUpdate(fates0: seq<Fate>, fates: seq<Fate>, n: nat, k: nat, f: Fate)
    requires n <= |fates0| == |fates| && k < |fates|
    ensures NetSum(fates0, fates[k := f], n) ==
      NetSum(fates0, fates, n) + (if k < n then Net(fates0[k], f) - Net(fates0[k], fates[k]) else 0)
    decreases n
  {
    hide Net;
    if n > 0 { NetUpdate(fates0, fates, n - 1, k, f); }
  }

  lemma {:induction false} NetNothing(fates: seq<Fate>, n: nat)
    requires n <= |fates|
    ensures NetSum(fates, fates, n) == 0
    decreases n
  {
    if n > 0 { NetNothing(fates, n - 1); }
  }

  /** A slot that is still unseen was unseen before, and one with a candidate was not ambiguous. */
  lemma {:induction false} ExtraAdvances(select: nat -> nat, f0: Fate, extra: seq<PoolTx>, id: nat)
    ensures var f := ExtraFate(select, f0, extra, id);
      (f.Unseen? ==> f0.Unseen?) && (f.Holding? ==> !f0.Ambiguous?) && (f0.Ambiguous? ==> f.Ambiguous?)
    decreases |extra|
  {
    if extra != [] { ExtraAdvances(select, f0, extra[..|extra| - 1], id); }
  }

  predicate HasId(select: nat -> nat, e: PoolTx, id: nat) { select(e.hash) == id }

  /** Only the extra transactions have the id, and those that do are one and the same. */
  ghost predicate OnlyExtra(select: nat -> nat, pool: seq<PoolTx>, extra: seq<PoolTx>, id: nat)
  {
    && Matches(select, pool, id) == 0
    && (exists e :: e in extra && HasId(select, e, id))
    && (forall d, e :: d in extra && e in extra && HasId(select, d, id) && HasId(select, e, id) ==>
          d.tx.witnessHash == e.tx.witnessHash)
  }

  /** One transaction of the pool has the id, and an extra one that is not the same has it too. */
  ghost predicate Contradicted(select: nat -> nat, pool: seq<PoolTx>, extra: seq<PoolTx>, id: nat)
  {
    && Matches(select, pool, id) == 1
    && exists d, e :: d in pool && e in extra && HasId(select, d, id) && HasId(select, e, id)
                      && d.tx.witnessHash != e.tx.witnessHash
  }

  /** What becomes of a candidate: it stays unless some extra transaction differs from it. */
  lemma {:induction false} HoldingFate(select: nat -> nat, t: Tx, extra: seq<PoolTx>, id: nat)
    ensures ExtraFate(select, Holding(t), extra, id) ==
      if exists e :: e in extra && HasId(select, e, id) && e.tx.witnessHash != t.witnessHash then Ambiguous
      else Holding(t)
    decreases |extra|
  {
    if extra != [] {
      var k := |extra| - 1;
      HoldingFate(select, t, extra[..k], id);
      assert extra == extra[..k] + [extra[k]];
      assert forall e :: e in extra <==> e in extra[..k] || e == extra[k];
    }
  }

  /** What becomes of a slot that the pool knows nothing about. */
  lemma {:induction false} UnseenFate(select: nat -> nat, extra: seq<PoolTx>, id: nat)
    ensures var f := ExtraFate(select, Unseen, extra, id);
      && (f.Unseen? <==> forall e :: e in extra ==> !HasId(select, e, id))
      && (f.Holding? ==> forall e :: e in extra && HasId(select, e, id) ==> e.tx.witnessHash == f.tx.witnessHash)
      && (f.Ambiguous? ==> exists d, e :: d in extra && e in extra && HasId(select, d, id) && HasId(select, e, id)
                                          && d.tx.witnessHash != e.tx.witnessHash)
    decreases |extra|
  {
    if extra != [] {
      var k := |extra| - 1;
      var front, last := extra[..k], extra[k];
      UnseenFate(select, front, id);
      assert extra == front + [last];
      assert forall e :: e in extra <==> e in front || e == last;
      var f := ExtraFate(select, Unseen, front, id);
      if !f.Unseen? {
        var d :| d in front && HasId(select, d, id);
        assert d in extra;
      } else {
        assert forall e :: e in front ==> !HasId(select, e, id);
        assert last in extra && (HasId(select, last, id) <==> !ExtraFate(select, Unseen, extra, id).Unseen?);
      }
      if f.Holding? && HasId(select, last, id) && f.tx.witnessHash != last.tx.witnessHash {
        var d :| d in front && HasId(select, d, id);
        assert d in extra && last in extra && d.tx.witnessHash != last.tx.witnessHash;
      }
      if f.Ambiguous? {
        var d, e :| d in front && e in front && HasId(select, d, id) && HasId(select, e,
            id) && d.tx.witnessHash != e.tx.witnessHash;
        assert d in extra && e in extra;
      }
    }
  }

  /** The net effect on a slot, in terms of the two lists. */
  lemma NetMeans(select: nat -> nat, pool: seq<PoolTx>, extra: seq<PoolTx>, id: nat)
    ensures var f0 := PoolFate(select, pool, id);
      Net(f0, ExtraFate(select, f0, extra, id)) ==
        if OnlyExtra(select, pool, extra, id) then 1 else if Contradicted(select, pool, extra, id) then -1 else 0
  {
    hide PoolFate, ExtraFate, Matches;
    var f0 := PoolFate(select, pool, id);
    PoolFateIff(select, pool, id);
    ExtraAdvances(select, f0, extra, id);
    match f0
    case Unseen => UnseenFate(select, extra, id);
    case Holding(t) =>
      HoldingFate(select, t, extra, id);
      SoleMatch(select, pool, id);
    case Ambiguous =>
  }

  /** The one match is the candidate. */
  lemma {:induction false} SoleMatch(select: nat -> nat, pool: seq<PoolTx>, id: nat)
    ensures Matches(select, pool, id) == 0 ==> forall d :: d in pool ==> !HasId(select, d, id)
    ensures var f := PoolFate(select, pool, id);
      f.Holding? ==>
        && (exists d :: d in pool && HasId(select, d, id))
        && (forall d :: d in pool && HasId(select, d, id) ==> d.tx == f.tx)
    decreases |pool|
  {
    if pool != [] {
      var k := |pool| - 1;
      SoleMatch(select, pool[..k], id);
      PoolFateIff(select, pool[..k], id);
      assert pool == pool[..k] + [pool[k]];
      assert forall d :: d in pool <==> d in pool[..k] || d == pool[k];
      if PoolFate(select, pool, id).Holding? {
        assert HasId(select, pool[k], id) <==> PoolFate(select, pool[..k], id).Unseen?;
      }
    }
  }

  /** Of the first n ids, those that only extra transactions have, less those whose candidate they contradict. */
  ghost function Balance(select: nat -> nat, ids: seq<nat>, pool: seq<PoolTx>, extra: seq<PoolTx>, n: nat): int
    requires n <= |ids|
  {
    FilledByExtra(select, ids, pool, extra, n) - LostToExtra(select, ids, pool, extra, n)
  }

  ghost function FilledByExtra(select: nat -> nat, ids: seq<nat>, pool: seq<PoolTx>, extra: seq<PoolTx>, n: nat): nat
    requires n <= |ids|
  {
    if n == 0 then 0
    else FilledByExtra(select, ids, pool, extra, n - 1) + if OnlyExtra(select, pool, extra, ids[n - 1]) then 1 else 0
  }

  ghost function LostToExtra(select: nat -> nat, ids: seq<nat>, pool: seq<PoolTx>, extra: seq<PoolTx>, n: nat): nat
    requires n <= |ids|
  {
    if n == 0 then 0
    else LostToExtra(select, ids, pool, extra, n - 1) + if Contradicted(select, pool, extra, ids[n - 1]) then 1 else 0
  }

  /** The ids among the first n that have one candidate. */
  function Found(select: nat -> nat, ids: seq<nat>, pool: seq<PoolTx>, extra: seq<PoolTx>, n: nat): nat
    requires n <= |ids|
  {
    if n == 0 then 0
    else Found(select, ids, pool, extra, n - 1) + if FateOf(select, pool, extra, ids[n - 1]).Holding? then 1 else 0
  }

  /** The fates of the ids after the pool, and after the extra transactions too. */
  ghost predicate FatesOf(select: nat -> nat, ids: seq<nat>, pool: seq<PoolTx>, extra: seq<PoolTx>, fates0: seq<Fate>,
                          fates: seq<Fate>)
  {
    && |ids| == |fates0| == |fates|
    && (forall k :: 0 <= k < |ids| ==> fates0[k] == PoolFate(select, pool, ids[k]))
    && (forall k :: 0 <= k < |ids| ==> fates[k] == ExtraFate(select, fates0[k], extra, ids[k]))
  }

  lemma {:induction false} NetIsBalance(select: nat -> nat, ids: seq<nat>, pool: seq<PoolTx>, extra: seq<PoolTx>,
                                        fates0: seq<Fate>, fates: seq<Fate>, n: nat)
    requires FatesOf(select, ids, pool, extra, fates0, fates) && n <= |ids|
    ensures NetSum(fates0, fates, n) == Balance(select, ids, pool, extra, n)
    decreases n
  {
    hide PoolFate, ExtraFate, Net, OnlyExtra, Contradicted;
    if n > 0 {
      NetIsBalance(select, ids, pool, extra, fates0, fates, n - 1);
      NetMeans(select, pool, extra, ids[n - 1]);
      NotBoth(select, pool, extra, ids[n - 1]);
    }
  }

  lemma NotBoth(select: nat -> nat, pool: seq<PoolTx>, extra: seq<PoolTx>, id: nat)
    ensures !(OnlyExtra(select, pool, extra, id) && Contradicted(select, pool, extra, id))
  {
  }

  /** How many of the first n fates are a candidate. */
  function Candidates(fates: seq<Fate>, n: nat): (h: nat)
    requires n <= |fates|
    ensures h <= n
    ensures h == n ==> forall k :: 0 <= k < n ==> fates[k].Holding?
  {
    if n == 0 then 0 else Candidates(fates, n - 1) + if fates[n - 1].Holding? then 1 else 0
  }

  lemma {:induction false} CandidatesUpdate(fates: seq<Fate>, n: nat, k: nat, f: Fate)
    requires n <= |fates| && k < |fates|
    ensures Candidates(fates[k := f], n) ==
      Candidates(fates, n) + (if k < n && f.Holding? then 1 else 0) - (if k < n && fates[k].Holding? then 1 else 0)
    decreases n
  {
    if n > 0 { CandidatesUpdate(fates, n - 1, k, f); }
  }

  lemma {:induction false} NoCandidates(fates: seq<Fate>, n: nat)
    requires n <= |fates| && forall k :: 0 <= k < |fates| ==> fates[k].Unseen?
    ensures Candidates(fates, n) == 0
    decreases n
  {
    if n > 0 { NoCandidates(fates, n - 1); }
  }

  lemma {:induction false} CandidatesFound(select: nat -> nat, ids: seq<nat>, pool: seq<PoolTx>, extra: seq<PoolTx>,
                                           fates0: seq<Fate>, fates: seq<Fate>, n: nat)
    requires FatesOf(select, ids, pool, extra, fates0, fates) && n <= |ids|
    ensures Candidates(fates, n) == Found(select, ids, pool, extra, n)
    decreases n
  {
    hide PoolFate, ExtraFate;
    if n > 0 { CandidatesFound(select, ids, pool, extra, fates0, fates, n - 1); }
  }

  /** How many of the first n slots are filled. */
  function Held(a: Slots, slots: seq<nat>, n: nat): nat
    requires n <= |slots| && forall k :: 0 <= k < |slots| ==> slots[k] < |a|
  {
    if n == 0 then 0 else Held(a, slots, n - 1) + if a[slots[n - 1]].Some? then 1 else 0
  }

  lemma {:induction false} HeldCandidates(a: Slots, slots: seq<nat>, fates: seq<Fate>, n: nat)
    requires n <= |slots| == |fates| && forall k :: 0 <= k < |slots| ==> slots[k] < |a|
    requires forall k :: 0 <= k < |slots| ==> a[slots[k]] == fates[k].Shown()
    ensures Held(a, slots, n) == Candidates(fates, n)
    decreases n
  {
    if n > 0 { HeldCandidates(a, slots, fates, n - 1); }
  }

  predicate Increasing(slots: seq<nat>) { forall i, j :: 0 <= i < j < |slots| ==> slots[i] < slots[j] }

  /** The fates of the listed slots only. */
  ghost predicate Picked(all: seq<Fate>, slots: seq<nat>, some: seq<Fate>)
  {
    && |some| == |slots|
    && forall k :: 0 <= k < |slots| ==> slots[k] < |all| && some[k] == all[slots[k]]
  }

  /** Slots of which nothing is known add nothing, so it is enough to sum over the others. */
  lemma {:induction false} PickedSums(all0: seq<Fate>, all: seq<Fate>, slots: seq<nat>, some0: seq<Fate>,
                                      some: seq<Fate>, n: nat, m: nat)
    requires |all0| == |all| && Picked(all0, slots, some0) && Picked(all, slots, some) && Increasing(slots)
    requires n <= |all| && m <= |slots|
    requires forall s :: 0 <= s < |all| && s !in slots ==> all0[s].Unseen? && all[s].Unseen?
    requires (m > 0 ==> slots[m - 1] < n) && (m < |slots| ==> slots[m] >= n)
    ensures NetSum(all0, all, n) == NetSum(some0, some, m)
    ensures Candidates(all0, n) == Candidates(some0, m) && Candidates(all, n) == Candidates(some, m)
    decreases n
  {
    hide Increasing, Net;
    if n > 0 {
      NothingGained(all0[n - 1], all[n - 1]);
      if m > 0 && slots[m - 1] == n - 1 {
        OneBelow(slots, m);
        PickedSums(all0, all, slots, some0, some, n - 1, m - 1);
      } else {
        NotPicked(slots, n, m);
        PickedSums(all0, all, slots, some0, some, n - 1, m);
      }
    }
  }

  lemma NothingGained(f0: Fate, f: Fate)
    ensures f0.Unseen? && f.Unseen? ==> Net(f0, f) == 0
  {
  }

  lemma OneBelow(slots: seq<nat>, m: nat)
    requires Increasing(slots) && m <= |slots|
    ensures m > 1 ==> slots[m - 2] < slots[m - 1]
  {
  }

  lemma NotPicked(slots: seq<nat>, n: nat, m: nat)
    requires Increasing(slots) && 0 < n && m <= |slots| && (m > 0 ==> slots[m - 1] != n - 1)
    requires (m > 0 ==> slots[m - 1] < n) && (m < |slots| ==> slots[m] >= n)
    ensures n - 1 !in slots && (m > 0 ==> slots[m - 1] < n - 1)
  {
    forall k | 0 <= k < |slots| ensures slots[k] != n - 1 {
      assert k < m - 1 ==> slots[k] < slots[m - 1];
      assert k > m ==> slots[k] > slots[m];
    }
  }

  /** The slot, counted from one, that a transaction is looked up for; 0 if its short id is not listed. */
  function Target(select: nat -> nat, stored: map<nat, nat>): nat -> nat
  {
    (hash: nat) => if select(hash) in stored then stored[select(hash)] + 1 else 0
  }

  /** The first n slots, counted from one. */
  function Places(n: nat): (r: seq<nat>)
    ensures |r| == n && forall s :: 0 <= s < n ==> r[s] == s + 1
  {
    seq(n, s => s + 1)
  }

  /** The slots show what is known about them; the others are as they were. */
  ghost predicate Shows(base: Slots, fates: seq<Fate>, a: Slots, have: seq<bool>)
  {
    && |a| == |have| == |base| == |fates|
    && forall s :: 0 <= s < |a| ==> a[s] == fates[s].Over(base[s]) && have[s] == !fates[s].Unseen?
  }

  /** The map from short ids to slots. */
  ghost predicate IdMap(shortIds: seq<nat>, slots: seq<nat>, ids: map<nat, nat>)
  {
    && |slots| == |shortIds|
    && (forall k :: 0 <= k < |shortIds| ==> shortIds[k] in ids && ids[shortIds[k]] == slots[k])
    && (forall id :: id in ids ==> id in shortIds)
  }

  predicate DistinctIds(ids: seq<nat>) { forall i, j :: 0 <= i < j < |ids| ==> ids[i] != ids[j] }

  /** All slot numbers are prefilled and there are short ids besides. */
  predicate NothingLeft(c: Announcement) { |c.prefilled| == U16 && c.shortIds != [] }

  /** A short id comes twice, or too many of them fall into one bucket. */
  predicate IdsCollide(c: Announcement, crowded: nat -> bool)
  {
    !DistinctIds(c.shortIds) || exists i :: 0 <= i < |c.shortIds| && crowded(i)
  }

  /** The distinct elements of a list. */
  function Elements(xs: seq<nat>): (r: set<nat>)
    ensures forall x :: x in r <==> x in xs
  {
    set x | x in xs
  }

  lemma {:induction false} ElementCount(xs: seq<nat>)
    ensures |Elements(xs)| <= |xs|
    ensures |Elements(xs)| == |xs| <==> DistinctIds(xs)
    decreases |xs|
  {
    if xs != [] {
      var k := |xs| - 1;
      var front, last := xs[..k], xs[k];
      ElementCount(front);
      assert xs == front + [last];
      assert Elements(xs) == Elements(front) + {last};
      if last in front {
        assert Elements(xs) == Elements(front);
        var j :| 0 <= j < k && front[j] == last;
        assert xs[j] == xs[k];
      }
    }
  }

  /** The position of a short id in the list. */
  ghost function PlaceOf(ids: seq<nat>, id: nat): (k: nat)
    requires id in ids
    ensures k < |ids| && ids[k] == id
  {
    var k :| 0 <= k < |ids| && ids[k] == id; k
  }

  lemma {:induction false} FreeStep(a: Slots, n: nat, k: nat)
    requires n < |a| && |Free(a, n)| == k < |Free(a, |a|)|
    ensures a[n].Some? ==> |Free(a, n + 1)| == k
    ensures a[n].None? ==> |Free(a, n + 1)| == k + 1 && Free(a, |a|)[k] == n
  {
    if a[n].None? { FreeHas(a, |a|, n); }
  }

  class PartialBlock {
    var headerNull: bool
    var avail: Slots
    var prefilledCount: nat
    var mempoolCount: nat
    var extraCount: int

    constructor ()
      ensures headerNull && avail == [] && prefilledCount == mempoolCount == 0 && extraCount == 0
    {
      headerNull, avail, prefilledCount, mempoolCount, extraCount := true, [], 0, 0, 0;
    }

    /** Puts the prefilled transactions in place. */
    method PutPrefilled(c: Announcement) returns (ok: bool)
      requires |avail| == c.Count() && forall j :: 0 <= j < |avail| ==> avail[j].None?
      modifies this`avail
      ensures ok <==> forall i :: 0 <= i < |c.prefilled| ==> Acceptable(c, i)
      ensures ok ==> avail == Filled(c, |c.prefilled|)
    {
      hide Filled, SlotOf;
      var last := -1;
      FilledNone(c, avail);
      for i := 0 to |c.prefilled|
        invariant |avail| == c.Count() && last == if i == 0 then -1 else SlotOf(c.prefilled, i - 1)
        invariant forall k :: 0 <= k < i ==> Acceptable(c, k)
        invariant avail == Filled(c, i)
      {
        if c.prefilled[i].tx.isNull {
          assert !Acceptable(c, i);
          return false;
        }
        SlotStep(c.prefilled, i);
        last := last + c.prefilled[i].index + 1;
        if last > U16 - 1 || last > |c.shortIds| + i {
          assert !Acceptable(c, i);
          return false;
        }
        FilledStep(c, i);
        avail := avail[last := Some(c.prefilled[i].tx)];
      }
      ok := true;
    }

    /** Moves the 16-bit offset on to the next slot that is not prefilled. Once every offset has been seen
        the search would go round for ever; here it is given up. */
    method NextFree(i: nat, offset0: nat) returns (ended: bool, offset: nat)
      requires offset0 < U16 && (NextIs(avail, i, offset0) || NoneFree(avail, i))
      ensures offset < U16 && (ended <==> !NoneFree(avail, i))
      ensures ended ==> i + offset < |avail| && |Free(avail, i + 1 + offset)| == i + 1 && i < |Free(avail, |avail|)|
      ensures ended ==> Free(avail, |avail|)[i] == i + offset
    {
      hide Free;
      offset := offset0;
      var seen := 0;
      if NextIs(avail, i, offset) { FreeAhead(avail, i, offset); }
      while avail[i + offset].Some?
        invariant offset < U16 && i + offset < |avail| && seen < U16
        invariant NoneFree(avail, i) || (NextIs(avail, i, offset) && seen == offset - offset0)
        decreases U16 - seen
      {
        if NextIs(avail, i, offset) {
          NextStep(avail, i, offset);
          FreeAhead(avail, i, offset + 1);
        }
        if seen == U16 - 1 { return false, offset; }
        offset := (offset + 1) % U16;
        seen := seen + 1;
      }
      SomeFree(avail, i, offset);
      FreeStep(avail, i + offset, i);
      ended := true;
    }

    /** Finds the slot of every short id; crowded says at which of them a bucket of the hash table
        is found to hold more than twelve ids. When all 65,536 slot numbers are prefilled and there are
        short ids besides, the search for an empty slot does not end. */
    method MapShortIds(c: Announcement, crowded: nat -> bool) returns (ended: bool, ok: bool, ids: map<nat, nat>)
      requires WellFormed(c) && avail == Filled(c, |c.prefilled|)
      ensures ended <==> !NothingLeft(c)
      ensures ended ==> (ok <==> !IdsCollide(c, crowded))
      ensures ended && ok ==> IdMap(c.shortIds, Truncated(ShortSlots(c)), ids)
    {
      hide Filled, SlotOf, Free, WellFormed, DistinctIds, ShortSlots, MappedTo, IdMap, NextIs, NoneFree;
      ids := map[];
      var offset: nat := 0;
      ShortSlotsAre(c, avail);
      ghost var slots := Truncated(ShortSlots(c));
      MappedNone(c.shortIds, slots);
      for i := 0 to |c.shortIds|
        invariant offset < U16 && i + offset <= |avail| && |Free(avail, i + offset)| == i
        invariant MappedTo(c.shortIds, slots, ids, i) && (i > 0 ==> |c.prefilled| < U16)
        invariant forall k :: 0 <= k < i ==> !crowded(k)
      {
        SearchStarts(c, avail, i, offset);
        var found;
        found, offset := NextFree(i, offset);
        if !found { return false, false, ids; }
        MappedNext(c.shortIds, slots, ids, i);
        ids := ids[c.shortIds[i] := (i + offset) % U16];
        if crowded(i) { return true, false, ids; }
      }
      MappedAll(c.shortIds, slots, ids);
      ended, ok := true, |ids.Keys| == |c.shortIds|;
    }

    /** Looks for block transactions in the pool, until every slot is filled. */
    method ScanPool(c: Announcement, ids: map<nat, nat>, pool: seq<PoolTx>)
        returns (have: seq<bool>, ghost n: nat, ghost fates: seq<Fate>)
      requires mempoolCount == 0 && forall id :: id in ids ==> ids[id] < |avail|
      modifies this`avail, this`mempoolCount
      ensures n <= |pool| && Shows(old(avail), fates, avail, have) && mempoolCount == Candidates(fates, |fates|)
      ensures forall s :: 0 <= s < |fates| ==> fates[s] == PoolFate(Target(c.selector, ids), pool[..n], s + 1)
      ensures n < |pool| ==> mempoolCount == |ids.Keys|
      ensures pool != [] ==> n > 0
      ensures forall k :: 0 < k < n ==>
        Found(Target(c.selector, ids), Places(|avail|), pool[..k], [], |avail|) != |ids.Keys|
    {
      hide Candidates, PoolFate, Found, Places;
      ghost var base := avail;
      have := seq(|avail|, _ => false);
      fates := seq(|avail|, _ => Unseen);
      NoCandidates(fates, |fates|);
      n := 0;
      PoolStart(Target(c.selector, ids), pool, fates);
      for i := 0 to |pool|
        invariant n == i && Shows(base, fates, avail, have) && mempoolCount == Candidates(fates, |fates|)
        invariant forall s :: 0 <= s < |fates| ==> fates[s] == PoolFate(Target(c.selector, ids), pool[..i], s + 1)
        invariant forall k :: 0 < k <= i ==>
          Found(Target(c.selector, ids), Places(|base|), pool[..k], [], |base|) != |ids.Keys|
      {
        var shortid := c.selector(pool[i].hash);
        ghost var before := fates;
        if shortid in ids {
          var slot := ids[shortid];
          ghost var f := PoolStep(fates[slot], pool[i].tx);
          CandidatesUpdate(fates, |fates|, slot, f);
          if !have[slot] {
            avail := avail[slot := Some(pool[i].tx)];
            have := have[slot := true];
            mempoolCount := mempoolCount + 1;
          } else {
            if avail[slot].Some? {
              avail := avail[slot := None];
              mempoolCount := mempoolCount - 1;
            }
          }
          fates := fates[slot := f];
        }
        n := i + 1;
        PoolNext(Target(c.selector, ids), pool, i, before, fates);
        FoundByPool(Target(c.selector, ids), pool[..i + 1], fates);
        if mempoolCount == |ids.Keys| { break; }
      }
    }

    /** Looks for block transactions among the extra ones, until every slot is filled. */
    method ScanExtra(c: Announcement, ids: map<nat, nat>, extra: seq<PoolTx>, have0: seq<bool>, ghost base: Slots,
                     ghost fates0: seq<Fate>, ghost pool: seq<PoolTx>)
        returns (ghost n: nat, ghost fates: seq<Fate>, ghost have: seq<bool>)
      requires Shows(base, fates0, avail, have0) && mempoolCount == Candidates(fates0, |fates0|)
      requires forall id :: id in ids ==> ids[id] < |avail|
      requires forall s :: 0 <= s < |fates0| ==> fates0[s] == PoolFate(Target(c.selector, ids), pool, s + 1)
      modifies this`avail, this`mempoolCount, this`extraCount
      ensures n <= |extra| && Shows(base, fates, avail, have) && mempoolCount == Candidates(fates, |fates|)
      ensures forall s :: 0 <= s < |fates| ==>
        fates[s] == ExtraFate(Target(c.selector, ids), fates0[s], extra[..n], s + 1)
      ensures n < |extra| ==> mempoolCount == |ids.Keys|
      ensures extraCount == old(extraCount) + NetSum(fates0, fates, |fates|)
      ensures extra != [] ==> n > 0
      ensures forall k :: 0 < k < n ==>
        Found(Target(c.selector, ids), Places(|avail|), pool, extra[..k], |avail|) != |ids.Keys|
    {
      hide Candidates, ExtraFate, NetSum, Shows, Found, Places, PoolFate, Target, FatesAre;
      ShowsSizes(base, fates0, avail, have0);
      ghost var target := Target(c.selector, ids);
      var has := have0;
      fates := fates0;
      n := 0;
      NetNothing(fates0, |fates0|);
      FatesAtFirst(target, pool, extra, fates0);
      for i := 0 to |extra|
        invariant n == i && |avail| == |has| == |fates| == |fates0|
        invariant Shows(base, fates, avail, has) && mempoolCount == Candidates(fates, |fates|)
        invariant FatesAre(target, pool, extra[..i], fates0, fates)
        invariant extraCount == old(extraCount) + NetSum(fates0, fates, |fates|)
        invariant forall k :: 0 < k <= i ==> Found(target, Places(|fates0|), pool, extra[..k], |fates0|) != |ids.Keys|
      {
        var shortid := c.selector(extra[i].hash);
        TargetAt(c.selector, ids, extra[i].hash);
        FatesNext(target, pool, extra, i, fates0, fates);
        if shortid in ids {
          var slot := ids[shortid];
          ghost var f := ExtraStep(fates[slot], extra[i].tx);
          FatesAdvance(target, pool, extra[..i], fates0, fates, slot);
          CandidatesUpdate(fates, |fates|, slot, f);
          NetUpdate(fates0, fates, |fates|, slot, f);
          ShowsAt(base, fates, avail, has, slot);
          ShowsNext(base, fates, avail, has, slot, f);
          ghost var a1, has1 := avail[slot := f.Shown()], has[slot := true];
          if !has[slot] {
            avail := avail[slot := Some(extra[i].tx)];
            has := has[slot := true];
            mempoolCount := mempoolCount + 1;
            extraCount := extraCount + 1;
          } else {
            if avail[slot].Some? && avail[slot].value.witnessHash != extra[i].tx.witnessHash {
              avail := avail[slot := None];
              mempoolCount := mempoolCount - 1;
              extraCount := extraCount - 1;
            }
          }
          assert avail == a1 && has == has1;
          fates := fates[slot := f];
        }
        n := i + 1;
        FoundByBoth(target, pool, extra[..i + 1], fates0, fates);
        if mempoolCount == |ids.Keys| { break; }
      }
      FatesSay(target, pool, extra[..n], fates0, fates);
      have := has;
    }

    /** Reads an announcement. Found transactions go to the slots as stored in 16 bits; up to 65,536
        transactions these are the slots that the short ids stand for. */
    method InitData(c: Announcement, pool: seq<PoolTx>, extra: seq<PoolTx>, crowded: nat -> bool)
        returns (status: Status, ghost n: nat, ghost m: nat, ghost stored: map<nat, nat>)
      requires headerNull && avail == [] && mempoolCount == 0 && extraCount == 0
      modifies this
      ensures status == Invalid <==> !WellFormed(c)
      ensures status == Endless <==> WellFormed(c) && NothingLeft(c)
      ensures status == Failed <==> WellFormed(c) && !NothingLeft(c) && IdsCollide(c, crowded)
      ensures status != CheckBlockFailed
      ensures status == Ok ==> n <= |pool| && m <= |extra| && (pool != [] ==> n > 0) && (extra != [] ==> m > 0)
      ensures status == Ok ==> !headerNull && prefilledCount == |c.prefilled|
      ensures status == Ok ==> IdMap(c.shortIds, Truncated(ShortSlots(c)), stored)
      ensures status == Ok ==> Placed(c, Target(c.selector, stored), pool[..n], extra[..m], avail)
      ensures status == Ok ==> Counted(Target(c.selector, stored), Places(c.Count()), pool[..n], extra[..m],
                                       mempoolCount, extraCount)
      ensures status == Ok && n < |pool| ==>
        Found(Target(c.selector, stored), Places(c.Count()), pool[..n], [], c.Count()) == |c.shortIds|
      ensures status == Ok && m < |extra| ==> mempoolCount == |c.shortIds|
      ensures status == Ok ==> forall k :: 0 < k < n ==>
        Found(Target(c.selector, stored), Places(c.Count()), pool[..k], [], c.Count()) != |c.shortIds|
      ensures status == Ok ==> forall k :: 0 < k < m ==>
        Found(Target(c.selector, stored), Places(c.Count()), pool[..n], extra[..k], c.Count()) != |c.shortIds|
      ensures status == Ok && c.Count() <= U16 ==>
        && Ready(c, pool[..n], extra[..m], avail) && mempoolCount == Held(avail, ShortSlots(c), |c.shortIds|)
        && Counted(c.selector, c.shortIds, pool[..n], extra[..m], mempoolCount, extraCount)
        && (n < |pool| ==>
             forall k :: 0 <= k < |c.shortIds| ==> PoolFate(c.selector, pool[..n], c.shortIds[k]).Holding?)
    {
      hide NetSum, Candidates, Found, Counted, Ready, Placed, Places;
      hide Filled, SlotOf, Free, Held, DistinctIds, Acceptable, PoolFate, ExtraFate, IdMap, Shows, ShortSlots;
      n, m, stored := 0, 0, map[];
      if c.headerNull || (|c.shortIds| == 0 && |c.prefilled| == 0) { return Invalid, n, m, stored; }
      if |c.shortIds| + |c.prefilled| > MAX_TRANSACTIONS { return Invalid, n, m, stored; }
      headerNull := false;
      avail := seq(c.Count(), _ => None);
      var ok := PutPrefilled(c);
      if !ok { return Invalid, n, m, stored; }
      prefilledCount := |c.prefilled|;
      AtMostAllNumbers(c);
      var ended, mapped, ids := MapShortIds(c, crowded);
      if !ended { return Endless, n, m, stored; }
      if !mapped { return Failed, n, m, stored; }
      stored := ids;
      StoredInBounds(c, ids);
      ghost var base := avail;
      ghost var fates0, fates, have1;
      var have;
      have, n, fates0 := ScanPool(c, ids, pool);
      ShowsSizes(base, fates0, avail, have);
      m, fates, have1 := ScanExtra(c, ids, extra, have, base, fates0, pool[..n]);
      ShowsSizes(base, fates, avail, have1);
      InitGeneral(c, ids, pool[..n], extra[..m], fates0, fates, avail, have1);
      if c.Count() <= U16 { InitFits(c, ids, pool[..n], extra[..m], fates0, fates, avail, have1); }
      status := Ok;
    }

    method IsTxAvailable(index: nat) returns (r: bool)
      requires !headerNull && index < |avail|
      ensures r <==> avail[index].Some?
    {
      r := avail[index].Some?;
    }

    /** Completes the block with the transactions that were missing, in order. */
    method FillBlock(missing: seq<Tx>, check: seq<Tx> -> Verdict) returns (status: Status, block: seq<Tx>)
      requires !headerNull
      modifies this
      ensures |missing| != old(Needed(avail)) <==> status == Invalid
      ensures status != Invalid ==> block == Merged(old(avail), missing, |old(avail)|)
      ensures status != Invalid ==>
        && (status == Ok <==> check(block) == Passed) && (status == Failed <==> check(block) == Corrupt)
        && (status == CheckBlockFailed <==> check(block) == Rejected)
      ensures |missing| >= old(Needed(avail)) ==> headerNull && avail == []
      ensures |missing| < old(Needed(avail)) ==> !headerNull && |avail| == |old(avail)|
      ensures |missing| < old(Needed(avail)) ==> forall j :: 0 <= j < |avail| ==>
        avail[j] == if j < Free(old(avail), |old(avail)|)[|missing|] then None else old(avail)[j]
    {
      hide Free, Merged;
      ghost var a := avail;
      var offset := 0;
      block := [];
      MergedNone(a, missing);
      for i := 0 to |avail|
        invariant |avail| == |a| && !headerNull && forall j :: i <= j < |a| ==> avail[j] == a[j]
        invariant forall j :: 0 <= j < i ==> avail[j].None?
        invariant 0 <= offset == |Free(a, i)| <= |missing| && |block| == i && block == Merged(a, missing, i)
      {
        FreeNext(a, i);
        if avail[i].None? {
          FreeHas(a, |a|, i);
          if |missing| <= offset { return Invalid, block; }
          block := block + [missing[offset]];
          offset := offset + 1;
        } else {
          block := block + [avail[i].value];
          avail := avail[i := None];
        }
        MergedNext(a, missing, i);
      }
      headerNull := true;
      avail := [];
      if |missing| != offset { return Invalid, block; }
      match check(block)
      case Passed => status := Ok;
      case Corrupt => status := Failed;
      case Rejected => status := CheckBlockFailed;
    }
  }

  datatype Verdict = Passed | Corrupt | Rejected

  /** How many transactions have to be asked for. */
  function Needed(a: Slots): nat { |Free(a, |a|)| }

  /** The first i transactions of the completed block. */
  function Merged(a: Slots, missing: seq<Tx>, i: nat): (r: seq<Tx>)
    requires i <= |a| && |Free(a, i)| <= |missing|
    ensures |r| == i
    ensures forall j :: 0 <= j < i ==> |Free(a, j)| <= |Free(a, i)|
  {
    if i == 0 then [] else
      FreeNext(a, i - 1);
      Merged(a, missing, i - 1) + [if a[i - 1].Some? then a[i - 1].value else missing[|Free(a, i - 1)|]]
  }

  lemma FreeNext(a: Slots, i: nat)
    requires i < |a|
    ensures |Free(a, i + 1)| == |Free(a, i)| + (if a[i].None? then 1 else 0)
    ensures |Free(a, i + 1)| <= |Free(a, |a|)|
  {
    FreePrefix(a, i + 1, |a|);
  }

  lemma MergedNone(a: Slots, missing: seq<Tx>)
    ensures |Free(a, 0)| == 0 && Merged(a, missing, 0) == []
  {
  }

  lemma MergedNext(a: Slots, missing: seq<Tx>, i: nat)
    requires i < |a| && |Free(a, i + 1)| <= |missing|
    ensures |Free(a, i)| <= |missing| && (a[i].None? ==> |Free(a, i)| < |missing|)
    ensures Merged(a, missing, i + 1) ==
      Merged(a, missing, i) + [if a[i].Some? then a[i].value else missing[|Free(a, i)|]]
  {
    FreeNext(a, i);
  }

  // ----- the block comes back -----

  /** The announcement describes the given transactions, under the hash that hashOf selects. */
  ghost predicate Describes(c: Announcement, vtx: seq<Tx>, hashOf: Tx -> nat)
  {
    && WellFormed(c) && |vtx| == c.Count() && |ShortSlots(c)| == |c.shortIds|
    && (forall i :: 0 <= i < |c.prefilled| ==>
          SlotOf(c.prefilled, i) < |vtx| && c.prefilled[i].tx == vtx[SlotOf(c.prefilled, i)])
    && (forall k :: 0 <= k < |c.shortIds| ==> c.shortIds[k] == c.selector(hashOf(vtx[ShortSlots(c)[k]])))
  }

  /** No transaction at hand shares its short id with a different transaction of the block. */
  ghost predicate NoCollision(c: Announcement, vtx: seq<Tx>, pool: seq<PoolTx>)
    requires WellFormed(c) && |vtx| == c.Count() && |ShortSlots(c)| == |c.shortIds|
  {
    forall e, k :: e in pool && 0 <= k < |c.shortIds| && c.selector(e.hash) == c.shortIds[k] ==>
        e.tx == vtx[ShortSlots(c)[k]]
  }

  /** No transaction at hand has the short id of one whose slot number does not fit 16 bits. */
  ghost predicate Near(c: Announcement, pool: seq<PoolTx>)
    requires WellFormed(c) && |ShortSlots(c)| == |c.shortIds|
  {
    forall e, k :: e in pool && 0 <= k < |c.shortIds| && c.selector(e.hash) == c.shortIds[k] ==> ShortSlots(c)[k] < U16
  }

  /** Whatever was found for a slot is the block's own transaction. */
  lemma FoundIsRight(c: Announcement, vtx: seq<Tx>, stored: map<nat, nat>, pool: seq<PoolTx>, e: PoolTx, s: nat)
    requires WellFormed(c) && |vtx| == c.Count() && |ShortSlots(c)| == |c.shortIds|
    requires IdMap(c.shortIds, Truncated(ShortSlots(c)), stored) && NoCollision(c, vtx, pool) && Near(c, pool)
    requires e in pool && Target(c.selector, stored)(e.hash) == s + 1
    ensures s < |vtx| && e.tx == vtx[s]
  {
    hide ShortSlots;
    var k := PlaceOf(c.shortIds, c.selector(e.hash));
    assert ShortSlots(c)[k] < U16;
    assert Truncated(ShortSlots(c))[k] == s;
  }

  /** Whatever a slot shows is the block's own transaction. */
  lemma ShownIsRight(c: Announcement, vtx: seq<Tx>, hashOf: Tx -> nat, stored: map<nat, nat>, pool: seq<PoolTx>,
                     extra: seq<PoolTx>, a: Slots)
    requires Describes(c, vtx, hashOf) && NoCollision(c, vtx, pool) && NoCollision(c, vtx, extra)
    requires IdMap(c.shortIds, Truncated(ShortSlots(c)), stored) && Near(c, pool) && Near(c, extra)
    requires Placed(c, Target(c.selector, stored), pool, extra, a)
    ensures forall s :: 0 <= s < |a| && a[s].Some? ==> a[s].value == vtx[s]
  {
    hide Filled, SlotOf, ShortSlots, PoolFate, ExtraFate, Target, IdMap, NoCollision, Near;
    var target := Target(c.selector, stored);
    forall s: nat | s < |a| && a[s].Some? ensures a[s].value == vtx[s] {
      var f := PoolFate(target, pool, s + 1);
      PoolCandidate(target, pool, s + 1);
      ExtraCandidate(target, f, extra, s + 1);
      var g := FateOf(target, pool, extra, s + 1);
      if g.Unseen? {
        var i :| 0 <= i < |c.prefilled| && SlotOf(c.prefilled, i) == s && a[s].value == c.prefilled[i].tx;
      } else if g == f {
        var e :| e in pool && target(e.hash) == s + 1 && e.tx == g.tx;
        FoundIsRight(c, vtx, stored, pool, e, s);
      } else {
        var e :| e in extra && target(e.hash) == s + 1 && e.tx == g.tx;
        FoundIsRight(c, vtx, stored, extra, e, s);
      }
    }
  }

  /** The transactions to ask for. */
  function Wanted(a: Slots, vtx: seq<Tx>): (r: seq<Tx>)
    requires |a| == |vtx|
    ensures |r| == Needed(a)
  {
    seq(Needed(a), k requires 0 <= k < Needed(a) => vtx[Free(a, |a|)[k]])
  }

  lemma {:induction false} MergedIsBlock(a: Slots, vtx: seq<Tx>, i: nat)
    requires |a| == |vtx| && i <= |a| && forall s :: 0 <= s < |a| && a[s].Some? ==> a[s].value == vtx[s]
    ensures |Free(a, i)| <= Needed(a) && Merged(a, Wanted(a, vtx), i) == vtx[..i]
    decreases i
  {
    hide Free, Merged;
    if i == 0 {
      MergedNone(a, Wanted(a, vtx));
    } else {
      FreeNext(a, i - 1);
      MergedIsBlock(a, vtx, i - 1);
      MergedNext(a, Wanted(a, vtx), i - 1);
      if a[i - 1].None? { FreeHas(a, |a|, i - 1); }
      assert vtx[..i] == vtx[..i - 1] + [vtx[i - 1]];
    }
  }

  /** If no transaction at hand collides with a different one of the block or belongs to a slot whose number
      does not fit 16 bits, then completing the block with the missing transactions rebuilds it. */
  lemma Rebuilt(c: Announcement, vtx: seq<Tx>, hashOf: Tx -> nat, stored: map<nat, nat>, pool: seq<PoolTx>,
                extra: seq<PoolTx>, a: Slots)
    requires Describes(c, vtx, hashOf) && NoCollision(c, vtx, pool) && NoCollision(c, vtx, extra)
    requires IdMap(c.shortIds, Truncated(ShortSlots(c)), stored) && Near(c, pool) && Near(c, extra)
    requires Placed(c, Target(c.selector, stored), pool, extra, a)
    ensures |a| == |vtx| && |Wanted(a, vtx)| == Needed(a) && Merged(a, Wanted(a, vtx), |a|) == vtx
  {
    hide Filled, Free, Merged, SlotOf, ShortSlots, PoolFate, ExtraFate, Wanted, IdMap, NoCollision, Near, Target;
    ShownIsRight(c, vtx, hashOf, stored, pool, extra, a);
    MergedIsBlock(a, vtx, |a|);
    assert vtx[..|a|] == vtx;
  }

  // ----- announcing -----

  /** Announces a block: the first transaction in full, the others by short id. */
  method Announce(vtx: seq<Tx>, selector: nat -> nat, useWitness: bool) returns (c: Announcement)
    requires |vtx| >= 1
    ensures c.selector == selector && c.prefilled == [Prefilled(0, vtx[0])] && !c.headerNull && c.Count() == |vtx|
    ensures !vtx[0].isNull && |vtx| <= MAX_TRANSACTIONS ==> Describes(c, vtx, HashOf(useWitness))
  {
    hide ShortSlots, SlotOf;
    var shortIds := seq(|vtx| - 1, _ => 0);
    for i := 1 to |vtx|
      invariant |shortIds| == |vtx| - 1
      invariant forall k :: 0 <= k < i - 1 ==> shortIds[k] == selector(HashOf(useWitness)(vtx[k + 1]))
    {
      shortIds := shortIds[i - 1 := selector(if useWitness then vtx[i].witnessHash else vtx[i].hash)];
    }
    c := Announcement(false, selector, shortIds, [Prefilled(0, vtx[0])]);
    if !vtx[0].isNull && |vtx| <= MAX_TRANSACTIONS { AnnounceSlots(c); }
  }

  function HashOf(useWitness: bool): Tx -> nat
  {
    (t: Tx) => if useWitness then t.witnessHash else t.hash
  }

  lemma AnnounceSlots(c: Announcement)
    requires |c.prefilled| == 1 && c.prefilled[0].index == 0 && !c.headerNull && c.Count() <= MAX_TRANSACTIONS
    requires !c.prefilled[0].tx.isNull
    ensures SlotOf(c.prefilled, 0) == 0 && WellFormed(c) && |ShortSlots(c)| == |c.shortIds|
    ensures forall k :: 0 <= k < |c.shortIds| ==> ShortSlots(c)[k] == k + 1
  {
    hide Free, Filled, ShortSlots;
    assert Acceptable(c, 0);
    ShortSlotsExact(c);
    var r := ShortSlots(c);
    assert 0 !in r;
    CountUp(r, c.Count());
  }

  /** That many increasing numbers between 1 and n can only be all of them. */
  lemma CountUp(r: seq<nat>, n: nat)
    requires |r| + 1 == n && (forall i, j :: 0 <= i < j < |r| ==> r[i] < r[j]) && forall k :: 0 <= k < |r| ==>
        0 < r[k] < n
    ensures forall k :: 0 <= k < |r| ==> r[k] == k + 1
  {
    forall k | 0 <= k < |r| ensures r[k] == k + 1 {
      AtLeast(r, k);
      AtMost(r, k, n);
    }
  }

  lemma {:induction false} AtLeast(r: seq<nat>, k: nat)
    requires k < |r| && (forall i, j :: 0 <= i < j < |r| ==> r[i] < r[j]) && r[0] > 0
    ensures r[k] >= k + 1
    decreases k
  {
    if k > 0 { AtLeast(r, k - 1); }
  }

  lemma {:induction false} AtMost(r: seq<nat>, k: nat, n: nat)
    requires k < |r| && (forall i, j :: 0 <= i < j < |r| ==> r[i] < r[j]) && r[|r| - 1] < n
    ensures r[k] <= n - (|r| - k)
    decreases |r| - k
  {
    if k < |r| - 1 { AtMost(r, k + 1, n); }
  }

  lemma PoolStart(target: nat -> nat, pool: seq<PoolTx>, fates: seq<Fate>)
    requires forall s :: 0 <= s < |fates| ==> fates[s].Unseen?
    ensures forall s :: 0 <= s < |fates| ==> fates[s] == PoolFate(target, pool[..0], s + 1)
  {
  }

  lemma PoolNext(target: nat -> nat, pool: seq<PoolTx>, i: nat, before: seq<Fate>, after: seq<Fate>)
    requires i < |pool| && |before| == |after|
    requires forall s :: 0 <= s < |before| ==> before[s] == PoolFate(target, pool[..i], s + 1)
    requires forall s :: 0 <= s < |before| ==>
      after[s] == if target(pool[i].hash) == s + 1 then PoolStep(before[s], pool[i].tx) else before[s]
    ensures forall s :: 0 <= s < |after| ==> after[s] == PoolFate(target, pool[..i + 1], s + 1)
  {
    assert pool[..i + 1][..i] == pool[..i];
  }

  lemma ExtraStart(target: nat -> nat, extra: seq<PoolTx>, fates0: seq<Fate>)
    ensures forall s :: 0 <= s < |fates0| ==> fates0[s] == ExtraFate(target, fates0[s], extra[..0], s + 1)
  {
  }

  lemma ExtraNext(target: nat -> nat, extra: seq<PoolTx>, i: nat, fates0: seq<Fate>, before: seq<Fate>,
                  after: seq<Fate>)
    requires i < |extra| && |before| == |after| == |fates0|
    requires forall s :: 0 <= s < |before| ==> before[s] == ExtraFate(target, fates0[s], extra[..i], s + 1)
    requires forall s :: 0 <= s < |before| ==>
      after[s] == if target(extra[i].hash) == s + 1 then ExtraStep(before[s], extra[i].tx) else before[s]
    ensures forall s :: 0 <= s < |after| ==> after[s] == ExtraFate(target, fates0[s], extra[..i + 1], s + 1)
  {
    assert extra[..i + 1][..i] == extra[..i];
  }

  /** The fates of all slots after the pool and after the extra transactions. */
  ghost predicate FatesAre(target: nat -> nat, pool: seq<PoolTx>, extra: seq<PoolTx>, fates0: seq<Fate>,
                           fates: seq<Fate>)
  {
    && |fates0| == |fates|
    && (forall s :: 0 <= s < |fates| ==> fates0[s] == PoolFate(target, pool, s + 1))
    && (forall s :: 0 <= s < |fates| ==> fates[s] == ExtraFate(target, fates0[s], extra, s + 1))
  }

  lemma FatesSay(target: nat -> nat, pool: seq<PoolTx>, extra: seq<PoolTx>, fates0: seq<Fate>, fates: seq<Fate>)
    requires FatesAre(target, pool, extra, fates0, fates)
    ensures |fates0| == |fates|
    ensures forall s :: 0 <= s < |fates| ==> fates[s] == ExtraFate(target, fates0[s], extra, s + 1)
  {
  }

  lemma FatesAtFirst(target: nat -> nat, pool: seq<PoolTx>, extra: seq<PoolTx>, fates0: seq<Fate>)
    requires forall s :: 0 <= s < |fates0| ==> fates0[s] == PoolFate(target, pool, s + 1)
    ensures FatesAre(target, pool, extra[..0], fates0, fates0)
  {
    ExtraStart(target, extra, fates0);
  }

  lemma FatesNext(target: nat -> nat, pool: seq<PoolTx>, extra: seq<PoolTx>, i: nat, fates0: seq<Fate>,
                  fates: seq<Fate>)
    requires i < |extra| && FatesAre(target, pool, extra[..i], fates0, fates)
    ensures var t := target(extra[i].hash);
      && (t == 0 || t > |fates| ==> FatesAre(target, pool, extra[..i + 1], fates0, fates))
      && (0 < t <= |fates| ==>
            FatesAre(target, pool, extra[..i + 1], fates0, fates[t - 1 := ExtraStep(fates[t - 1], extra[i].tx)]))
  {
    hide PoolFate, ExtraFate;
    var t := target(extra[i].hash);
    var after := if 0 < t <= |fates| then fates[t - 1 := ExtraStep(fates[t - 1], extra[i].tx)] else fates;
    ExtraNext(target, extra, i, fates0, fates, after);
  }

  lemma FatesAdvance(target: nat -> nat, pool: seq<PoolTx>, extra: seq<PoolTx>, fates0: seq<Fate>, fates: seq<Fate>,
                     s: nat)
    requires FatesAre(target, pool, extra, fates0, fates) && s < |fates|
    ensures |fates0| == |fates| && (fates[s].Unseen? ==> fates0[s].Unseen?)
    ensures (fates[s].Holding? ==> !fates0[s].Ambiguous?) && (fates0[s].Ambiguous? ==> fates[s].Ambiguous?)
  {
    hide PoolFate, ExtraFate;
    ExtraAdvances(target, fates0[s], extra, s + 1);
  }

  lemma TargetAt(select: nat -> nat, stored: map<nat, nat>, hash: nat)
    ensures Target(select, stored)(hash) == if select(hash) in stored then stored[select(hash)] + 1 else 0
  {
  }

  lemma FoundByBoth(target: nat -> nat, pool: seq<PoolTx>, extra: seq<PoolTx>, fates0: seq<Fate>, fates: seq<Fate>)
    requires FatesAre(target, pool, extra, fates0, fates)
    ensures Found(target, Places(|fates|), pool, extra, |fates|) == Candidates(fates, |fates|)
  {
    hide PoolFate, ExtraFate, Found, Candidates;
    CandidatesFound(target, Places(|fates|), pool, extra, fates0, fates, |fates|);
  }

  lemma FoundByPool(target: nat -> nat, pool: seq<PoolTx>, fates: seq<Fate>)
    requires forall s :: 0 <= s < |fates| ==> fates[s] == PoolFate(target, pool, s + 1)
    ensures Found(target, Places(|fates|), pool, [], |fates|) == Candidates(fates, |fates|)
  {
    hide PoolFate, Found, Candidates;
    FoundByBoth(target, pool, [], fates, fates);
  }

  lemma ShowsAt(base: Slots, fates: seq<Fate>, a: Slots, have: seq<bool>, s: nat)
    requires Shows(base, fates, a, have) && s < |a|
    ensures |a| == |have| == |base| == |fates| && a[s] == fates[s].Over(base[s]) && have[s] == !fates[s].Unseen?
  {
  }

  lemma ShowsNext(base: Slots, fates: seq<Fate>, a: Slots, have: seq<bool>, s: nat, f: Fate)
    requires Shows(base, fates, a, have) && s < |a| && !f.Unseen?
    ensures |a| == |have| == |base| == |fates| && Shows(base, fates[s := f], a[s := f.Shown()], have[s := true])
  {
  }

  lemma ShowsSizes(base: Slots, fates: seq<Fate>, a: Slots, have: seq<bool>)
    requires Shows(base, fates, a, have)
    ensures |a| == |have| == |base| == |fates|
  {
  }

  /** Stored slot numbers are slots. */
  lemma StoredInBounds(c: Announcement, stored: map<nat, nat>)
    requires WellFormed(c) && DistinctIds(c.shortIds) && IdMap(c.shortIds, Truncated(ShortSlots(c)), stored)
    ensures |stored.Keys| == |c.shortIds|
    ensures forall id :: id in stored ==> stored[id] < c.Count()
  {
    hide Filled, Free, ShortSlots;
    IdCount(c.shortIds, Truncated(ShortSlots(c)), stored);
    forall id | id in stored ensures stored[id] < c.Count() {
      var k := PlaceOf(c.shortIds, id);
      assert ShortSlots(c)[k] < c.Count();
    }
  }

  /** Every slot shows what was found for it, or else its prefilled transaction. */
  ghost predicate Placed(c: Announcement, target: nat -> nat, pool: seq<PoolTx>, extra: seq<PoolTx>, a: Slots)
  {
    && WellFormed(c) && |a| == c.Count()
    && forall s :: 0 <= s < |a| ==> a[s] == FateOf(target, pool, extra, s + 1).Over(Filled(c, |c.prefilled|)[s])
  }

  /** Both counters are given by the ids and the two lists; the second one may be negative. */
  ghost predicate Counted(select: nat -> nat, ids: seq<nat>, pool: seq<PoolTx>, extra: seq<PoolTx>, held: nat,
                          gain: int)
  {
    && held == Found(select, ids, pool, extra, |ids|)
    && gain == Balance(select, ids, pool, extra, |ids|)
    && (gain >= 0 <==> LostToExtra(select, ids, pool, extra, |ids|) <= FilledByExtra(select, ids, pool, extra, |ids|))
  }

  lemma CountedByFates(select: nat -> nat, ids: seq<nat>, pool: seq<PoolTx>, extra: seq<PoolTx>, fates0: seq<Fate>,
                       fates: seq<Fate>)
    requires FatesOf(select, ids, pool, extra, fates0, fates)
    ensures Counted(select, ids, pool, extra, Candidates(fates, |fates|), NetSum(fates0, fates, |fates|))
    ensures Found(select, ids, pool, [], |ids|) == Candidates(fates0, |fates0|)
  {
    hide Candidates, Found, NetSum, PoolFate, FilledByExtra, LostToExtra;
    NetIsBalance(select, ids, pool, extra, fates0, fates, |ids|);
    CandidatesFound(select, ids, pool, extra, fates0, fates, |ids|);
    CandidatesFound(select, ids, pool, [], fates0, fates0, |ids|);
  }

  /** What the scans leave, slot by slot. */
  lemma InitGeneral(c: Announcement, stored: map<nat, nat>, pool: seq<PoolTx>, extra: seq<PoolTx>, fates0: seq<Fate>,
                    fates: seq<Fate>, a: Slots, have: seq<bool>)
    requires WellFormed(c) && |fates0| == |fates| == c.Count() && Shows(Filled(c, |c.prefilled|), fates, a, have)
    requires forall s :: 0 <= s < |fates| ==> fates0[s] == PoolFate(Target(c.selector, stored), pool, s + 1)
    requires forall s :: 0 <= s < |fates| ==> fates[s] == ExtraFate(Target(c.selector, stored), fates0[s], extra, s + 1)
    ensures Placed(c, Target(c.selector, stored), pool, extra, a)
    ensures Counted(Target(c.selector, stored), Places(c.Count()), pool, extra, Candidates(fates, |fates|),
                    NetSum(fates0, fates, |fates|))
    ensures Found(Target(c.selector, stored), Places(c.Count()), pool, [], c.Count()) == Candidates(fates0, |fates0|)
  {
    hide Filled, PoolFate, ExtraFate, Candidates, NetSum, Counted, Found;
    CountedByFates(Target(c.selector, stored), Places(c.Count()), pool, extra, fates0, fates);
  }

  // ----- up to 65,536 transactions -----

  lemma {:induction false} SamePoolFate(f: nat -> nat, a: nat, g: nat -> nat, b: nat, pool: seq<PoolTx>)
    requires forall h :: f(h) == a <==> g(h) == b
    ensures PoolFate(f, pool, a) == PoolFate(g, pool, b)
    decreases |pool|
  {
    if pool != [] { SamePoolFate(f, a, g, b, pool[..|pool| - 1]); }
  }

  lemma {:induction false} SameExtraFate(f: nat -> nat, a: nat, g: nat -> nat, b: nat, f0: Fate, extra: seq<PoolTx>)
    requires forall h :: f(h) == a <==> g(h) == b
    ensures ExtraFate(f, f0, extra, a) == ExtraFate(g, f0, extra, b)
    decreases |extra|
  {
    if extra != [] { SameExtraFate(f, a, g, b, f0, extra[..|extra| - 1]); }
  }

  /** A slot that no short id stands for stays as it was. */
  lemma {:induction false} NeverFound(f: nat -> nat, a: nat, pool: seq<PoolTx>, extra: seq<PoolTx>)
    requires forall h :: f(h) != a
    ensures PoolFate(f, pool, a) == Unseen && FateOf(f, pool, extra, a) == Unseen
    decreases |pool| + |extra|
  {
    if pool != [] {
      NeverFound(f, a, pool[..|pool| - 1], []);
    }
    if extra != [] {
      NeverFound(f, a, pool, extra[..|extra| - 1]);
    }
  }

  /** A transaction is looked up for the slot of its short id, as stored. */
  lemma TargetIs(select: nat -> nat, shortIds: seq<nat>, slots: seq<nat>, stored: map<nat, nat>, k: nat)
    requires IdMap(shortIds, slots, stored) && Increasing(slots) && k < |slots|
    ensures forall h :: Target(select, stored)(h) == slots[k] + 1 <==> select(h) == shortIds[k]
  {
    forall h: nat | Target(select, stored)(h) == slots[k] + 1 ensures select(h) == shortIds[k] {
      var j := PlaceOf(shortIds, select(h));
      SameSlot(slots, j, k);
    }
  }

  lemma SameSlot(slots: seq<nat>, j: nat, k: nat)
    requires Increasing(slots) && j < |slots| && k < |slots| && slots[j] == slots[k]
    ensures j == k
  {
  }

  lemma TargetOther(select: nat -> nat, shortIds: seq<nat>, slots: seq<nat>, stored: map<nat, nat>, s: nat)
    requires IdMap(shortIds, slots, stored) && s !in slots
    ensures forall h :: Target(select, stored)(h) != s + 1
  {
    forall h: nat ensures Target(select, stored)(h) != s + 1 {
      if select(h) in stored {
        var j := PlaceOf(shortIds, select(h));
        assert slots[j] in slots;
      }
    }
  }

  /** The fates of the slots that the short ids stand for are those of the short ids. */
  lemma FatesById(c: Announcement, slots: seq<nat>, stored: map<nat, nat>, pool: seq<PoolTx>, extra: seq<PoolTx>,
                  fates0: seq<Fate>, fates: seq<Fate>) returns (some0: seq<Fate>, some: seq<Fate>)
    requires IdMap(c.shortIds, slots, stored) && Increasing(slots)
    requires forall k :: 0 <= k < |slots| ==> slots[k] < |fates|
    requires FatesOf(Target(c.selector, stored), Places(|fates|), pool, extra, fates0, fates)
    ensures FatesOf(c.selector, c.shortIds, pool, extra, some0, some)
    ensures Picked(fates0, slots, some0) && Picked(fates, slots, some)
    ensures forall s :: 0 <= s < |fates| && s !in slots ==> fates0[s].Unseen? && fates[s].Unseen?
  {
    hide PoolFate, ExtraFate, Target, Increasing, IdMap;
    IdMapSizes(c.shortIds, slots, stored);
    var target := Target(c.selector, stored);
    some0 := seq(|slots|, k requires 0 <= k < |slots| => fates0[slots[k]]);
    some := seq(|slots|, k requires 0 <= k < |slots| => fates[slots[k]]);
    forall k | 0 <= k < |slots|
      ensures some0[k] == PoolFate(c.selector, pool, c.shortIds[k])
      ensures some[k] == ExtraFate(c.selector, some0[k], extra, c.shortIds[k])
    {
      TargetIs(c.selector, c.shortIds, slots, stored, k);
      assert Places(|fates|)[slots[k]] == slots[k] + 1;
      SamePoolFate(target, slots[k] + 1, c.selector, c.shortIds[k], pool);
      SameExtraFate(target, slots[k] + 1, c.selector, c.shortIds[k], some0[k], extra);
    }
    forall s | 0 <= s < |fates| && s !in slots ensures fates0[s].Unseen? && fates[s].Unseen? {
      TargetOther(c.selector, c.shortIds, slots, stored, s);
      assert Places(|fates|)[s] == s + 1;
      NeverFound(target, s + 1, pool, extra);
    }
  }

  lemma IdMapSizes(shortIds: seq<nat>, slots: seq<nat>, stored: map<nat, nat>)
    requires IdMap(shortIds, slots, stored)
    ensures |slots| == |shortIds|
  {
  }

  /** What the scans leave, short id by short id. */
  lemma InitFits(c: Announcement, stored: map<nat, nat>, pool: seq<PoolTx>, extra: seq<PoolTx>, fates0: seq<Fate>,
                 fates: seq<Fate>, a: Slots, have: seq<bool>)
    requires WellFormed(c) && c.Count() <= U16 && IdMap(c.shortIds, Truncated(ShortSlots(c)), stored)
    requires |fates0| == |fates| == c.Count() && Shows(Filled(c, |c.prefilled|), fates, a, have)
    requires forall s :: 0 <= s < |fates| ==> fates0[s] == PoolFate(Target(c.selector, stored), pool, s + 1)
    requires forall s :: 0 <= s < |fates| ==> fates[s] == ExtraFate(Target(c.selector, stored), fates0[s], extra, s + 1)
    ensures Ready(c, pool, extra, a) && Held(a, ShortSlots(c), |c.shortIds|) == Candidates(fates, |fates|)
    ensures Counted(c.selector, c.shortIds, pool, extra, Candidates(fates, |fates|), NetSum(fates0, fates, |fates|))
    ensures Candidates(fates0, |fates0|) == |c.shortIds| ==>
      forall k :: 0 <= k < |c.shortIds| ==> PoolFate(c.selector, pool, c.shortIds[k]).Holding?
  {
    hide Filled, Free, ShortSlots, PoolFate, ExtraFate, NetSum, Held, Counted, Increasing, IdMap, Target, SlotOf;
    var slots := ShortSlots(c);
    StartScan(c);
    TruncatedSame(slots, c.Count());
    var some0, some := FatesById(c, slots, stored, pool, extra, fates0, fates);
    PickedSums(fates0, fates, slots, some0, some, |fates|, |slots|);
    CountedByFates(c.selector, c.shortIds, pool, extra, some0, some);
    HeldCandidates(a, slots, some, |slots|);
  }

  /** Every slot shows its prefilled transaction or what was found under its short id. */
  ghost predicate Ready(c: Announcement, pool: seq<PoolTx>, extra: seq<PoolTx>, a: Slots)
  {
    && WellFormed(c) && |a| == c.Count() && |ShortSlots(c)| == |c.shortIds|
    && (forall k :: 0 <= k < |c.shortIds| ==> 
        a[ShortSlots(c)[k]] == FateOf(c.selector, pool, extra, c.shortIds[k]).Shown())
    && (forall s :: 0 <= s < |a| && s !in ShortSlots(c) ==> a[s] == Filled(c, |c.prefilled|)[s])
  }

  lemma StartScan(c: Announcement)
    requires WellFormed(c)
    ensures |ShortSlots(c)| == |c.shortIds| && Increasing(ShortSlots(c))
    ensures forall k :: 0 <= k < |ShortSlots(c)| ==> Filled(c, |c.prefilled|)[ShortSlots(c)[k]].None?
  {
    hide Filled, Free, SlotOf;
    ShortSlotsExact(c);
  }

  lemma IdCount(shortIds: seq<nat>, slots: seq<nat>, ids: map<nat, nat>)
    requires IdMap(shortIds, slots, ids) && DistinctIds(shortIds)
    ensures |ids.Keys| == |shortIds| == |slots|
  {
    ElementCount(shortIds);
    assert ids.Keys == Elements(shortIds);
  }

  lemma FilledNone(c: Announcement, a: Slots)
    requires |a| == c.Count() && forall j :: 0 <= j < |a| ==> a[j].None?
    ensures Filled(c, 0) == a
  {
  }

  lemma SlotStep(p: seq<Prefilled>, i: nat)
    requires i < |p|
    ensures SlotOf(p, i) == (if i == 0 then -1 else SlotOf(p, i - 1)) + p[i].index + 1
  {
  }

  lemma FilledStep(c: Announcement, i: nat)
    requires i < |c.prefilled| && forall k :: 0 <= k <= i ==> Acceptable(c, k)
    ensures SlotOf(c.prefilled, i) < c.Count()
    ensures Filled(c, i + 1) == Filled(c, i)[SlotOf(c.prefilled, i) := Some(c.prefilled[i].tx)]
  {
    assert Acceptable(c, i);
  }

  lemma ShortSlotsAre(c: Announcement, a: Slots)
    requires WellFormed(c) && a == Filled(c, |c.prefilled|)
    ensures |a| == c.Count() && ShortSlots(c) == Free(a, |a|) && Free(a, 0) == [] && |ShortSlots(c)| == |c.shortIds|
  {
    hide Free, Filled;
    ShortSlotsExact(c);
    NoneBelow(a);
  }

  lemma NoneBelow(a: Slots)
    ensures Free(a, 0) == []
  {
  }

  // ----- the search for empty slots -----

  lemma {:induction false} SlotGap(p: seq<Prefilled>, i: nat, j: nat)
    requires i <= j < |p|
    ensures SlotOf(p, j) >= SlotOf(p, i) + (j - i)
    decreases j
  {
    if i < j { SlotGap(p, i, j - 1); }
  }

  /** There are no more prefilled transactions than slot numbers. */
  lemma AtMostAllNumbers(c: Announcement)
    requires WellFormed(c)
    ensures |c.prefilled| <= U16
  {
    hide SlotOf;
    assert |c.prefilled| > 0 ==> Acceptable(c, |c.prefilled| - 1);
  }

  /** The test for an empty slot fails at every 16-bit offset for the first short id exactly when all 65,536
      slot numbers are prefilled: then the search does not end. */
  lemma SearchEndless(c: Announcement)
    requires WellFormed(c) && c.shortIds != []
    ensures (forall o: nat :: o < U16 && o < c.Count() ==> Filled(c, |c.prefilled|)[o].Some?) <==> |c.prefilled| == U16
  {
    hide SlotOf, Filled, Free, ShortSlots;
    AtMostAllNumbers(c);
    if |c.prefilled| == U16 {
      forall o: nat | o < U16 ensures Filled(c, |c.prefilled|)[o].Some? {
        assert Acceptable(c, U16 - 1);
        SlotGap(c.prefilled, o, U16 - 1);
        FilledAt(c, |c.prefilled|, o);
      }
    } else {
      StartScan(c);
      FirstSlot(c);
      assert Filled(c, |c.prefilled|)[ShortSlots(c)[0]].None?;
    }
  }

  /** The first empty slot comes after at most all prefilled ones. */
  lemma FirstSlot(c: Announcement)
    requires WellFormed(c) && c.shortIds != [] && |ShortSlots(c)| == |c.shortIds|
    ensures ShortSlots(c)[0] <= |c.prefilled|
  {
    hide ShortSlots, SlotOf;
    ShortSlotsExact(c);
    AtMost(ShortSlots(c), 0, c.Count());
  }

  /** An announcement of 65,537 transactions that is accepted and never dealt with. */
  lemma SearchEndlessAt(selector: nat -> nat, id: nat, t: Tx)
    requires !t.isNull
    ensures var c := Announcement(false, selector, [id], seq(U16, _ => Prefilled(0, t)));
      WellFormed(c) && forall o: nat :: o < U16 ==> Filled(c, U16)[o] == Some(t)
  {
    hide SlotOf, Filled;
    var c := Announcement(false, selector, [id], seq(U16, _ => Prefilled(0, t)));
    forall i | 0 <= i < U16 ensures Acceptable(c, i) && SlotOf(c.prefilled, i) == i { InRow(c.prefilled, i); }
    forall o: nat | o < U16 ensures Filled(c, U16)[o] == Some(t) { FilledAt(c, U16, o); }
  }

  lemma {:induction false} InRow(p: seq<Prefilled>, i: nat)
    requires i < |p| && forall k :: 0 <= k < |p| ==> p[k].index == 0
    ensures SlotOf(p, i) == i
    decreases i
  {
    if i > 0 { InRow(p, i - 1); }
  }

  /** No 16-bit offset leads to an empty slot. */
  ghost predicate NoneFree(a: Slots, i: nat)
  {
    i + U16 <= |a| && forall s :: i <= s < i + U16 ==> a[s].Some?
  }

  /** i empty slots have been passed, and another one is ahead that an offset can reach. */
  ghost predicate NextIs(a: Slots, i: nat, offset: nat)
  {
    && i + offset <= |a| && |Free(a, i + offset)| == i < |Free(a, |a|)|
    && Free(a, |a|)[i] < i + U16
  }

  lemma SomeFree(a: Slots, i: nat, o: nat)
    requires o < U16 && i + o < |a| && a[i + o].None?
    ensures !NoneFree(a, i)
  {
  }

  lemma FreeAhead(a: Slots, i: nat, offset: nat)
    requires NextIs(a, i, offset)
    ensures i + offset < |a| && i + offset <= Free(a, |a|)[i] && !NoneFree(a, i)
  {
    hide Free, NoneFree;
    NotAtEnd(a, i + offset, i);
    NotBefore(a, i + offset, i);
    var j := Free(a, |a|)[i];
    assert a[j].None?;
    SomeFree(a, i, j - i);
  }

  lemma NotBefore(a: Slots, n: nat, k: nat)
    requires n <= |a| && |Free(a, n)| == k < |Free(a, |a|)|
    ensures Free(a, |a|)[k] >= n
  {
    hide Free;
    var j := Free(a, |a|)[k];
    FreePrefix(a, n, |a|);
    if j < n {
      FreeHas(a, n, j);
      FreeOrdered(a, |a|, |Free(a, j)|, k);
    }
  }

  lemma NextStep(a: Slots, i: nat, offset: nat)
    requires offset < U16 && i + offset < |a| && NextIs(a, i, offset) && a[i + offset].Some?
    ensures offset + 1 < U16 && NextIs(a, i, offset + 1)
  {
    hide Free;
    FreeAhead(a, i, offset);
    FreeStep(a, i + offset, i);
  }

  /** At the first short id or later, the search ends unless all slot numbers are prefilled. */
  lemma SearchStarts(c: Announcement, a: Slots, i: nat, offset: nat)
    requires WellFormed(c) && a == Filled(c, |c.prefilled|) && i < |c.shortIds| && offset < U16
    requires i + offset <= |a| && |Free(a, i + offset)| == i && (i > 0 ==> |c.prefilled| < U16)
    ensures |c.prefilled| == U16 ==> NoneFree(a, i)
    ensures |c.prefilled| != U16 ==> |c.prefilled| < U16 && NextIs(a, i, offset) && !NoneFree(a, i)
  {
    hide SlotOf, Filled, Free;
    AtMostAllNumbers(c);
    ShortSlotsAre(c, a);
    if |c.prefilled| == U16 {
      SearchEndless(c);
    } else {
      ShortSlotsExact(c);
      AtMost(ShortSlots(c), i, c.Count());
      FreeAhead(a, i, offset);
    }
  }

  /** While fewer empty slots have been passed than there are, the end is not reached. */
  lemma NotAtEnd(a: Slots, n: nat, k: nat)
    requires n <= |a| && |Free(a, n)| == k
    ensures k < |Free(a, |a|)| ==> n < |a|
  {
  }

  /** The first i short ids have been entered, the last one to use an id prevailing. */
  ghost predicate MappedTo(shortIds: seq<nat>, slots: seq<nat>, ids: map<nat, nat>, i: nat)
    requires i <= |shortIds| == |slots|
  {
    && ids.Keys == Elements(shortIds[..i])
    && (DistinctIds(shortIds) ==> forall k :: 0 <= k < i ==> shortIds[k] in ids && ids[shortIds[k]] == slots[k])
  }

  lemma MappedNone(shortIds: seq<nat>, slots: seq<nat>)
    requires |shortIds| == |slots|
    ensures MappedTo(shortIds, slots, map[], 0)
  {
  }

  lemma MappedNext(shortIds: seq<nat>, slots: seq<nat>, ids: map<nat, nat>, i: nat)
    requires i < |shortIds| == |slots| && MappedTo(shortIds, slots, ids, i)
    ensures MappedTo(shortIds, slots, ids[shortIds[i] := slots[i]], i + 1)
  {
    hide Elements;
    assert shortIds[..i + 1] == shortIds[..i] + [shortIds[i]];
    assert Elements(shortIds[..i + 1]) == Elements(shortIds[..i]) + {shortIds[i]};
  }

  lemma MappedAll(shortIds: seq<nat>, slots: seq<nat>, ids: map<nat, nat>)
    requires |shortIds| == |slots| && MappedTo(shortIds, slots, ids, |shortIds|)
    ensures |ids.Keys| == |shortIds| <==> DistinctIds(shortIds)
    ensures DistinctIds(shortIds) ==> IdMap(shortIds, slots, ids)
  {
    hide DistinctIds;
    assert shortIds[..|shortIds|] == shortIds;
    ElementCount(shortIds);
  }

  /** The short id of a transaction of the block. */
  function IdOf(selector: nat -> nat, useWitness: bool, t: Tx): nat { selector(HashOf(useWitness)(t)) }

  /** A transaction at hand with the short id of one of the block is that one. */
  ghost predicate NoMistake(selector: nat -> nat, useWitness: bool, vtx: seq<Tx>, pool: seq<PoolTx>)
  {
    forall e, i :: e in pool && 0 < i < |vtx| && selector(e.hash) == IdOf(selector, useWitness, vtx[i]) ==>
      e.tx == vtx[i]
  }

  /** Two transactions of the block, apart from the first, have the same short id. */
  ghost predicate SameIds(selector: nat -> nat, useWitness: bool, vtx: seq<Tx>)
  {
    exists i, j :: 0 < i < j < |vtx| && IdOf(selector, useWitness, vtx[i]) == IdOf(selector, useWitness, vtx[j])
  }

  /** No transaction at hand has the short id of one of the block beyond the first 65,536. */
  ghost predicate NoneBeyond(selector: nat -> nat, useWitness: bool, vtx: seq<Tx>, pool: seq<PoolTx>)
  {
    forall e, i :: e in pool && U16 <= i < |vtx| ==> selector(e.hash) != IdOf(selector, useWitness, vtx[i])
  }

  /** A block announced, matched against the transactions at hand, completed and checked: when nothing
      collides it arrives as it was sent. */
  method Relay(vtx: seq<Tx>, selector: nat -> nat, useWitness: bool, pool: seq<PoolTx>, extra: seq<PoolTx>,
               crowded: nat -> bool, check: seq<Tx> -> Verdict)
      returns (status: Status, block: seq<Tx>)
    requires |vtx| >= 1
    requires NoMistake(selector, useWitness, vtx, pool) && NoMistake(selector, useWitness, vtx, extra)
    ensures status == Invalid <==> vtx[0].isNull || |vtx| > MAX_TRANSACTIONS
    ensures status != Endless
    ensures status == Ok ==> check(block) == Passed
    ensures NoneBeyond(selector, useWitness, vtx, pool) && NoneBeyond(selector, useWitness, vtx, extra) ==>
      && (status == Ok ==> block == vtx)
      && (check(vtx) == Passed && status != Ok && status != Invalid ==>
           || SameIds(selector, useWitness, vtx)
           || (exists i :: 0 <= i < |vtx| - 1 && crowded(i)))
  {
    hide Placed, Describes, NoCollision, Merged, Needed, Wanted, DistinctIds, WellFormed, NoneBeyond, NoMistake, Near;
    hide IdOf;
    block := [];
    var c := Announce(vtx, selector, useWitness);
    var p := new PartialBlock();
    ghost var n, m, stored;
    AcceptedIff(c, vtx);
    status, n, m, stored := p.InitData(c, pool, extra, crowded);
    if status == Invalid { return; }
    RelayFacts(c, vtx, useWitness, pool, extra);
    if status != Ok { return; }
    SubPool(c, vtx, pool, n);
    SubPool(c, vtx, extra, m);
    PlacedSize(c, stored, pool[..n], extra[..m], p.avail);
    if Near(c, pool) && Near(c, extra) {
      Rebuilt(c, vtx, HashOf(useWitness), stored, pool[..n], extra[..m], p.avail);
    }
    var missing := Wanted(p.avail, vtx);
    status, block := p.FillBlock(missing, check);
  }

  /** An announcement is accepted unless its first transaction is null or there are too many. */
  lemma AcceptedIff(c: Announcement, vtx: seq<Tx>)
    requires |vtx| == c.Count() >= 1 && c.prefilled == [Prefilled(0, vtx[0])] && !c.headerNull
    ensures WellFormed(c) <==> !vtx[0].isNull && |vtx| <= MAX_TRANSACTIONS
  {
    if WellFormed(c) { assert Acceptable(c, 0); }
  }

  lemma PlacedSize(c: Announcement, stored: map<nat, nat>, pool: seq<PoolTx>, extra: seq<PoolTx>, a: Slots)
    requires Placed(c, Target(c.selector, stored), pool, extra, a)
    ensures |a| == c.Count()
  {
  }

  lemma RelayFacts(c: Announcement, vtx: seq<Tx>, useWitness: bool, pool: seq<PoolTx>, extra: seq<PoolTx>)
    requires Describes(c, vtx, HashOf(useWitness)) && c.prefilled == [Prefilled(0, vtx[0])] && |vtx| == c.Count()
    requires NoMistake(c.selector, useWitness, vtx, pool) && NoMistake(c.selector, useWitness, vtx, extra)
    ensures WellFormed(c) && |ShortSlots(c)| == |c.shortIds|
    ensures NoCollision(c, vtx, pool) && NoCollision(c, vtx, extra)
    ensures NoneBeyond(c.selector, useWitness, vtx, pool) ==> Near(c, pool)
    ensures NoneBeyond(c.selector, useWitness, vtx, extra) ==> Near(c, extra)
    ensures !DistinctIds(c.shortIds) ==> SameIds(c.selector, useWitness, vtx)
  {
    hide ShortSlots, HashOf;
    assert Acceptable(c, 0);
    AnnounceSlots(c);
    assert forall k :: 0 <= k < |c.shortIds| ==> c.shortIds[k] == IdOf(c.selector, useWitness, vtx[k + 1]);
    if !DistinctIds(c.shortIds) {
      var i, j :| 0 <= i < j < |c.shortIds| && c.shortIds[i] == c.shortIds[j];
      assert IdOf(c.selector, useWitness, vtx[i + 1]) == IdOf(c.selector, useWitness, vtx[j + 1]);
    }
  }

  lemma SubPool(c: Announcement, vtx: seq<Tx>, pool: seq<PoolTx>, n: nat)
    requires WellFormed(c) && |vtx| == c.Count() && |ShortSlots(c)| == |c.shortIds| && NoCollision(c, vtx, pool)
    requires n <= |pool|
    ensures NoCollision(c, vtx, pool[..n]) && (Near(c, pool) ==> Near(c, pool[..n]))
  {
    assert forall e :: e in pool[..n] ==> e in pool;
  }

  // ----- the counter of extra transactions below zero -----

  /** The pool and the extra transactions hold different transactions under one short id. */
  method ExtraCountBelowZero() returns (count: int)
    ensures count == -1
  {
    var first, pooled, other := Tx(0, 0, false), Tx(1, 1, false), Tx(1, 2, false);
    var c := Announcement(false, (h: nat) => h, [7], [Prefilled(0, first)]);
    var pool, extra := [PoolTx(7, pooled)], [PoolTx(7, other)];
    assert Acceptable(c, 0);
    var p := new PartialBlock();
    ghost var n, m, stored;
    var status;
    status, n, m, stored := p.InitData(c, pool, extra, _ => false);
    assert status == Ok && pool[..n] == pool && extra[..m] == extra;
    OneContradiction(c, pool, extra);
    count := p.extraCount;
  }

  lemma OneContradiction(c: Announcement, pool: seq<PoolTx>, extra: seq<PoolTx>)
    requires |c.shortIds| == |pool| == |extra| == 1
    requires HasId(c.selector, pool[0], c.shortIds[0]) && HasId(c.selector, extra[0], c.shortIds[0])
    requires pool[0].tx.witnessHash != extra[0].tx.witnessHash
    ensures Balance(c.selector, c.shortIds, pool, extra, 1) == -1
  {
    assert pool[..0] == [];
    assert Matches(c.selector, pool, c.shortIds[0]) == 1;
    assert pool[0] in pool && extra[0] in extra;
    assert Contradicted(c.selector, pool, extra, c.shortIds[0]);
    NotBoth(c.selector, pool, extra, c.shortIds[0]);
    assert FilledByExtra(c.selector, c.shortIds, pool, extra, 0) == 0;
    assert LostToExtra(c.selector, c.shortIds, pool, extra, 0) == 0;
  }

  /** An announcement with one transaction too many for 16-bit slot numbers: the last slot is lost. */
  lemma SlotNumberLost(selector: nat -> nat, shortIds: seq<nat>, first: Tx)
    requires |shortIds| == U16 && !first.isNull
    ensures var c := Announcement(false, selector, shortIds, [Prefilled(0, first)]);
      WellFormed(c) && |ShortSlots(c)| == U16 && ShortSlots(c)[U16 - 1] == U16 && ShortSlots(c)[U16 - 1] % U16 == 0
  {
    hide ShortSlots;
    var c := Announcement(false, selector, shortIds, [Prefilled(0, first)]);
    assert Acceptable(c, 0);
    AnnounceSlots(c);
  }

  /** Above that size nothing is ever put into slot 65,536 or a later one that a short id stands for. The
      transaction that the pool holds for it goes to the slot 65,536 places before, over whatever is
      prefilled there, if it is the only one found for that slot. */
  lemma Misplaced(c: Announcement, stored: map<nat, nat>, pool: seq<PoolTx>, extra: seq<PoolTx>, k: nat, a: Slots)
    requires WellFormed(c) && IdMap(c.shortIds, Truncated(ShortSlots(c)), stored)
    requires k < |c.shortIds| == |ShortSlots(c)| && ShortSlots(c)[k] >= U16
    requires Placed(c, Target(c.selector, stored), pool, extra, a)
    ensures var s, target := ShortSlots(c)[k], Target(c.selector, stored);
      && s < |a| && a[s].None?
      && (Matches(target, pool, s - U16 + 1) == 1 && (forall e :: e in extra ==> target(e.hash) != s - U16 + 1) ==>
           forall e :: e in pool && HasId(c.selector, e, c.shortIds[k]) ==> a[s - U16] == Some(e.tx))
  {
    hide Filled, Free, ShortSlots, IdMap, PoolFate, ExtraFate, Matches;
    var s, target := ShortSlots(c)[k], Target(c.selector, stored);
    StartScan(c);
    var slots := Truncated(ShortSlots(c));
    assert forall j :: 0 <= j < |slots| ==> slots[j] < U16;
    TargetOther(c.selector, c.shortIds, slots, stored, s);
    NeverFound(target, s + 1, pool, extra);
    assert FateOf(target, pool, extra, s + 1) == Unseen;
    IdMapAt(c.shortIds, slots, stored, k);
    forall e | Matches(target, pool, s - U16 + 1) == 1 && (forall e :: e in extra ==> target(e.hash) != s - U16 + 1)
        && e in pool && HasId(c.selector, e, c.shortIds[k])
      ensures a[s - U16] == Some(e.tx)
    {
      assert target(e.hash) == s - U16 + 1 && HasId(target, e, s - U16 + 1);
      PoolFateIff(target, pool, s - U16 + 1);
      SoleMatch(target, pool, s - U16 + 1);
      HoldingFate(target, e.tx, extra, s - U16 + 1);
      assert FateOf(target, pool, extra, s - U16 + 1) == Holding(e.tx);
    }
  }

  lemma IdMapAt(shortIds: seq<nat>, slots: seq<nat>, stored: map<nat, nat>, k: nat)
    requires IdMap(shortIds, slots, stored) && k < |shortIds|
    ensures |slots| == |shortIds| && shortIds[k] in stored && stored[shortIds[k]] == slots[k]
  {
  }
}
