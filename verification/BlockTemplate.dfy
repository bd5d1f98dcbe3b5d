/** Block templates: what makes a selection of mempool transactions a valid one. */
module BlockTemplate {

  const MAX_BLOCK_SIGOPS_COST: nat := 80000
  const WITNESS_SCALE_FACTOR: nat := 4
  const COINBASE_WEIGHT: nat := 4000
  const COINBASE_SIZE: nat := 1000
  const COINBASE_SIGOPS: nat := 400

  /** A mempool transaction: virtual size, weight, signature operations, serialized size, its fee as paid
      and as modified by the operator, whether its lock time has passed, and its place in the graph of
      unconfirmed transactions. */
  datatype Entry = Entry(
    size: nat,
    weight: nat,
    sigops: nat,
    serialized: nat,
    fee: int,
    modifiedFee: int,
    isFinal: bool,
    hasWitness: bool,
    parents: set<nat>,
    ancestors: set<nat>)

  /** Transactions are numbered by their place in the pool. */
  type Pool = seq<Entry>

  ghost predicate EntryOk(pool: Pool, t: nat)
    requires t < |pool|
  {
    && t !in pool[t].ancestors && pool[t].parents <= pool[t].ancestors
    && (forall a :: a in pool[t].ancestors ==> a < |pool| && pool[a].ancestors <= pool[t].ancestors)
    && (forall a :: a in pool[t].ancestors && a !in pool[t].parents ==>
          exists p :: p in pool[t].parents && p < |pool| && a in pool[p].ancestors)
    && pool[t].weight <= WITNESS_SCALE_FACTOR * pool[t].size
  }

  /** What the mempool maintains about its graph. */
  ghost predicate PoolOk(pool: Pool) { forall t :: 0 <= t < |pool| ==> EntryOk(pool, t) }

  /** A transaction with all its unconfirmed ancestors. */
  function Package(pool: Pool, t: nat): set<nat>
    requires t < |pool|
  {
    pool[t].ancestors + {t}
  }

  // ----- sums over sets of transactions -----

  /** The sum of f over the members of s below n. */
  function Sum(f: nat -> nat, s: set<nat>, n: nat): nat
  {
    if n == 0 then 0 else Sum(f, s, n - 1) + if n - 1 in s then f(n - 1) else 0
  }

  lemma {:induction false} SumMono(f: nat -> nat, s: set<nat>, t: set<nat>, n: nat)
    requires s <= t
    ensures Sum(f, s, n) <= Sum(f, t, n)
    decreases n
  {
    if n > 0 { SumMono(f, s, t, n - 1); }
  }

  lemma {:induction false} SumSplit(f: nat -> nat, s: set<nat>, t: set<nat>, n: nat)
    requires s !! t
    ensures Sum(f, s + t, n) == Sum(f, s, n) + Sum(f, t, n)
    decreases n
  {
    if n > 0 { SumSplit(f, s, t, n - 1); }
  }

  lemma {:induction false} SumOne(f: nat -> nat, x: nat, n: nat)
    ensures Sum(f, {x}, n) == if x < n then f(x) else 0
    decreases n
  {
    if n > 0 { SumOne(f, x, n - 1); }
  }

  lemma SumAdd(f: nat -> nat, s: set<nat>, x: nat, n: nat)
    requires x !in s && x < n
    ensures Sum(f, s + {x}, n) == Sum(f, s, n) + f(x)
  {
    SumSplit(f, s, {x}, n);
    SumOne(f, x, n);
  }

  lemma {:induction false} SumEmpty(f: nat -> nat, n: nat)
    ensures Sum(f, {}, n) == 0
    decreases n
  {
    if n > 0 { SumEmpty(f, n - 1); }
  }

  lemma {:induction false} SumScaled(f: nat -> nat, g: nat -> nat, k: nat, s: set<nat>, n: nat)
    requires forall x: nat :: x in s && x < n ==> f(x) <= k * g(x)
    ensures Sum(f, s, n) <= k * Sum(g, s, n)
    decreases n
  {
    if n > 0 {
      SumScaled(f, g, k, s, n - 1);
      var a := Sum(g, s, n - 1);
      if n - 1 in s { assert k * (a + g(n - 1)) == k * a + k * g(n - 1); }
    }
  }

  /** The sum of amounts that may be negative. */
  function Amount(f: nat -> int, s: set<nat>, n: nat): int
  {
    if n == 0 then 0 else Amount(f, s, n - 1) + if n - 1 in s then f(n - 1) else 0
  }

  lemma {:induction false} AmountAdd(f: nat -> int, s: set<nat>, x: nat, n: nat)
    requires x !in s
    ensures Amount(f, s + {x}, n) == Amount(f, s, n) + if x < n then f(x) else 0
    decreases n
  {
    if n > 0 { AmountAdd(f, s, x, n - 1); }
  }

  lemma {:induction false} AmountEmpty(f: nat -> int, n: nat)
    ensures Amount(f, {}, n) == 0
    decreases n
  {
    if n > 0 { AmountEmpty(f, n - 1); }
  }

  function FeeOf(pool: Pool): nat -> int { (t: nat) => if t < |pool| then pool[t].fee else 0 }
  function ModifiedFeeOf(pool: Pool): nat -> int { (t: nat) => if t < |pool| then pool[t].modifiedFee else 0 }

  function TotalFees(pool: Pool, s: set<nat>): int { Amount(FeeOf(pool), s, |pool|) }
  function TotalModifiedFees(pool: Pool, s: set<nat>): int { Amount(ModifiedFeeOf(pool), s, |pool|) }

  function SizeOf(pool: Pool): nat -> nat { (t: nat) => if t < |pool| then pool[t].size else 0 }
  function WeightOf(pool: Pool): nat -> nat { (t: nat) => if t < |pool| then pool[t].weight else 0 }
  function SigopsOf(pool: Pool): nat -> nat { (t: nat) => if t < |pool| then pool[t].sigops else 0 }
  function SerializedOf(pool: Pool): nat -> nat { (t: nat) => if t < |pool| then pool[t].serialized else 0 }

  function TotalSize(pool: Pool, s: set<nat>): nat { Sum(SizeOf(pool), s, |pool|) }
  function TotalWeight(pool: Pool, s: set<nat>): nat { Sum(WeightOf(pool), s, |pool|) }
  function TotalSigops(pool: Pool, s: set<nat>): nat { Sum(SigopsOf(pool), s, |pool|) }
  function TotalSerialized(pool: Pool, s: set<nat>): nat { Sum(SerializedOf(pool), s, |pool|) }

  lemma WeightBound(pool: Pool, s: set<nat>)
    requires PoolOk(pool)
    ensures TotalWeight(pool, s) <= WITNESS_SCALE_FACTOR * TotalSize(pool, s)
  {
    hide Sum;
    forall x: nat | x in s && x < |pool| ensures WeightOf(pool)(x) <= WITNESS_SCALE_FACTOR * SizeOf(pool)(x) {
      assert EntryOk(pool, x);
    }
    SumScaled(WeightOf(pool), SizeOf(pool), WITNESS_SCALE_FACTOR, s, |pool|);
  }

  // ----- the order in the block -----

  /** Every ancestor of a transaction comes before it, and no transaction comes twice. */
  ghost predicate Ordered(pool: Pool, block: seq<nat>)
  {
    && (forall i :: 0 <= i < |block| ==> block[i] < |pool|)
    && (forall i, j :: 0 <= i < j < |block| ==> block[i] != block[j])
    && (forall i, a :: 0 <= i < |block| && a in pool[block[i]].ancestors ==> a in block[..i])
  }

  ghost predicate Listed(block: seq<nat>, inBlock: set<nat>) { forall t :: t in inBlock <==> t in block }

  /** A block contains every ancestor of what it contains. */
  lemma BlockClosed(pool: Pool, block: seq<nat>, inBlock: set<nat>, t: nat)
    requires Ordered(pool, block) && Listed(block, inBlock) && t in inBlock
    ensures t < |pool| && pool[t].ancestors <= inBlock
  {
    var i :| 0 <= i < |block| && block[i] == t;
    forall a | a in pool[t].ancestors ensures a in inBlock {
      assert a in block[..i];
    }
  }

  /** A transaction whose ancestors are all there may come next. */
  lemma OrderedNext(pool: Pool, block: seq<nat>, inBlock: set<nat>, t: nat)
    requires Ordered(pool, block) && Listed(block, inBlock) && t < |pool| && t !in inBlock
    requires pool[t].ancestors <= inBlock
    ensures Ordered(pool, block + [t]) && Listed(block + [t], inBlock + {t})
  {
    var b := block + [t];
    forall i, a | 0 <= i < |b| && a in pool[b[i]].ancestors ensures a in b[..i] {
      if i < |block| {
        assert a in block[..i] && b[..i] == block[..i];
      } else {
        assert b[..i] == block;
      }
    }
  }

  /** An ancestor has fewer ancestors. */
  lemma FewerAncestors(pool: Pool, t: nat, a: nat)
    requires PoolOk(pool) && t < |pool| && a in pool[t].ancestors
    ensures a < |pool| && |pool[a].ancestors| < |pool[t].ancestors|
  {
    assert EntryOk(pool, t);
    assert EntryOk(pool, a);
    var x, y := pool[a].ancestors, pool[t].ancestors;
    assert a in y && a !in x && x <= y;
    ProperSubset(x, y, a);
  }

  lemma ProperSubset(x: set<nat>, y: set<nat>, a: nat)
    requires x <= y && a in y && a !in x
    ensures |x| < |y|
  {
    assert y == x + (y - x);
    assert a in y - x;
  }

  /** With all parents in the block, all ancestors are. */
  lemma ParentsSuffice(pool: Pool, block: seq<nat>, inBlock: set<nat>, t: nat)
    requires PoolOk(pool) && Ordered(pool, block) && Listed(block, inBlock) && t < |pool| && pool[t].parents <= inBlock
    ensures pool[t].ancestors <= inBlock
  {
    assert EntryOk(pool, t);
    forall a | a in pool[t].ancestors ensures a in inBlock {
      if a !in pool[t].parents {
        var p :| p in pool[t].parents && p < |pool| && a in pool[p].ancestors;
        BlockClosed(pool, block, inBlock, p);
      }
    }
  }

  /** What remains of a package once some of it is in the block. */
  function Remaining(pool: Pool, t: nat, inBlock: set<nat>): set<nat>
    requires t < |pool|
  {
    Package(pool, t) - inBlock
  }

  /** Sorted by number of ancestors, a package comes in an order that is valid in a block. */
  lemma SortedIsValid(pool: Pool, t: nat, inBlock: set<nat>, sorted: seq<nat>, i: nat)
    requires PoolOk(pool) && t < |pool| && i < |sorted|
    requires forall x :: x in sorted <==> x in Remaining(pool, t, inBlock)
    requires forall j, k :: 0 <= j < k < |sorted| && sorted[j] < |pool| && sorted[k] < |pool| ==>
      |pool[sorted[j]].ancestors| <= |pool[sorted[k]].ancestors|
    ensures sorted[i] < |pool| && forall a :: a in pool[sorted[i]].ancestors ==> a in inBlock || a in sorted[..i]
  {
    assert EntryOk(pool, t);
    var x := sorted[i];
    assert x in sorted;
    forall a | a in pool[x].ancestors ensures a in inBlock || a in sorted[..i] {
      FewerAncestors(pool, x, a);
      assert x == t || pool[x].ancestors <= pool[t].ancestors;
      assert a in Package(pool, t);
      if a !in inBlock {
        assert a in sorted;
        var k :| 0 <= k < |sorted| && sorted[k] == a;
        assert k < i;
      }
    }
  }

  // ----- what is kept about packages that are partly in the block -----

  /** Size, signature operations and fees of what is left of a package. */
  datatype Modified = Modified(size: int, sigops: int, fees: int)

  /** The figures of a set of transactions. */
  function Figures(pool: Pool, s: set<nat>): Modified
  {
    Modified(TotalSize(pool, s), TotalSigops(pool, s), TotalModifiedFees(pool, s))
  }

  /** The figures cached in the mempool: for the whole package. */
  function Whole(pool: Pool, t: nat): Modified
    requires t < |pool|
  {
    Figures(pool, Package(pool, t))
  }

  /** The figures are at least those of what is left. */
  ghost predicate Covers(pool: Pool, t: nat, inBlock: set<nat>, m: Modified)
    requires t < |pool|
  {
    && m.size >= TotalSize(pool, Remaining(pool, t, inBlock))
    && m.sigops >= TotalSigops(pool, Remaining(pool, t, inBlock))
  }

  /** The figures are exactly those of what is left. */
  ghost predicate Exact(pool: Pool, t: nat, inBlock: set<nat>, m: Modified)
    requires t < |pool|
  {
    m == Figures(pool, Remaining(pool, t, inBlock))
  }

  /** Apart from transactions that failed before: modified entries are exact, and a transaction without
      one has no ancestor in the block, so that the cached figures are exact for it. */
  ghost predicate AllExact(pool: Pool, mods: map<nat, Modified>, inBlock: set<nat>, failed: set<nat>)
  {
    && (forall t :: t in mods && t !in failed ==> t < |pool| && Exact(pool, t, inBlock, mods[t]))
    && (forall t: nat :: t < |pool| && t !in mods && t !in failed && t !in inBlock ==> Package(pool, t) !! inBlock)
  }

  lemma WholeExact(pool: Pool, t: nat, inBlock: set<nat>)
    requires t < |pool| && Package(pool, t) !! inBlock
    ensures Exact(pool, t, inBlock, Whole(pool, t))
  {
    assert Remaining(pool, t, inBlock) == Package(pool, t);
  }

  lemma LessExact(pool: Pool, t: nat, inBlock: set<nat>, m: Modified, it: nat)
    requires t < |pool| && it < |pool| && Exact(pool, t, inBlock, m)
    ensures it !in inBlock && it in Package(pool, t) ==> Exact(pool, t, inBlock + {it}, Less(pool, m, it))
    ensures it !in Package(pool, t) ==> Exact(pool, t, inBlock + {it}, m)
  {
    hide Sum, Amount;
    var rest := Remaining(pool, t, inBlock + {it});
    if it !in inBlock && it in Package(pool, t) {
      assert Remaining(pool, t, inBlock) == rest + {it};
      SumAdd(SizeOf(pool), rest, it, |pool|);
      SumAdd(SigopsOf(pool), rest, it, |pool|);
      AmountAdd(ModifiedFeeOf(pool), rest, it, |pool|);
    }
    if it !in Package(pool, t) {
      assert Remaining(pool, t, inBlock) == rest;
    }
  }

  /** Every modified entry is outside the block and covers what is left of its package. */
  ghost predicate ModifiedOk(pool: Pool, mods: map<nat, Modified>, inBlock: set<nat>)
  {
    forall t :: t in mods ==> t < |pool| && t !in inBlock && Covers(pool, t, inBlock, mods[t])
  }

  lemma WholeCovers(pool: Pool, t: nat, inBlock: set<nat>)
    requires t < |pool|
    ensures Covers(pool, t, inBlock, Whole(pool, t))
  {
    hide Sum;
    SumMono(SizeOf(pool), Remaining(pool, t, inBlock), Package(pool, t), |pool|);
    SumMono(SigopsOf(pool), Remaining(pool, t, inBlock), Package(pool, t), |pool|);
  }

  /** The figures after another ancestor has gone into the block. */
  function Less(pool: Pool, m: Modified, it: nat): Modified
    requires it < |pool|
  {
    Modified(m.size - pool[it].size, m.sigops - pool[it].sigops, m.fees - pool[it].modifiedFee)
  }

  lemma LessCovers(pool: Pool, t: nat, inBlock: set<nat>, m: Modified, it: nat)
    requires t < |pool| && it < |pool| && Covers(pool, t, inBlock, m)
    ensures it !in inBlock && it in Package(pool, t) ==> Covers(pool, t, inBlock + {it}, Less(pool, m, it))
    ensures it !in Package(pool, t) ==> Covers(pool, t, inBlock + {it}, m)
  {
    hide Sum;
    var rest := Remaining(pool, t, inBlock + {it});
    if it !in inBlock && it in Package(pool, t) {
      assert Remaining(pool, t, inBlock) == rest + {it};
      SumAdd(SizeOf(pool), rest, it, |pool|);
      SumAdd(SigopsOf(pool), rest, it, |pool|);
    }
    if it !in Package(pool, t) {
      assert Remaining(pool, t, inBlock) == rest;
    }
  }

  /** A fresh entry for a package of which it is the first to be taken into account: earlier ones
      that the cached figures still include only make the figures larger. */
  lemma FreshCovers(pool: Pool, t: nat, inBlock: set<nat>, it: nat)
    requires t < |pool| && it < |pool| && it in Package(pool, t)
    ensures Covers(pool, t, inBlock + {it}, Less(pool, Whole(pool, t), it))
  {
    hide Sum;
    var rest := Package(pool, t) - {it};
    assert Package(pool, t) == rest + {it};
    SumAdd(SizeOf(pool), rest, it, |pool|);
    SumAdd(SigopsOf(pool), rest, it, |pool|);
    SumMono(SizeOf(pool), Remaining(pool, t, inBlock + {it}), rest, |pool|);
    SumMono(SigopsOf(pool), Remaining(pool, t, inBlock + {it}), rest, |pool|);
  }

  /** The transaction itself and all that depend on it. */
  function Descendants(pool: Pool, it: nat): (r: set<nat>)
    ensures forall d :: d in r ==> d < |pool|
  {
    set d: nat | 0 <= d < |pool| && (d == it || it in pool[d].ancestors)
  }

  /** The modified entries after one added transaction has been taken into account for one descendant. */
  function UpdateOne(pool: Pool, mods: map<nat, Modified>, it: nat, d: nat): map<nat, Modified>
    requires it < |pool| && d < |pool|
  {
    mods[d := Less(pool, if d in mods then mods[d] else Whole(pool, d), it)]
  }

  /** Taking one added transaction into account, for all of its descendants outside the added ones. */
  ghost predicate Updated(pool: Pool, before: map<nat, Modified>, after: map<nat, Modified>, it: nat, done: set<nat>)
    requires it < |pool|
  {
    && after.Keys == before.Keys + done
    && (forall d :: d in done ==> d < |pool| && after[d] == Less(pool,
          if d in before then before[d] else Whole(pool, d), it))
    && (forall d :: d in before && d !in done ==> after[d] == before[d])
  }

  lemma UpdatedNext(pool: Pool, before: map<nat, Modified>, after: map<nat, Modified>, it: nat, done: set<nat>, d: nat)
    requires it < |pool| && d < |pool| && Updated(pool, before, after, it, done) && d !in done
    ensures Updated(pool, before, UpdateOne(pool, after, it, d), it, done + {d})
  {
    hide Whole, Less;
  }

  /** After the update every entry covers what is left with that transaction in the block as well. */
  lemma UpdatedCovers(pool: Pool, before: map<nat, Modified>, after: map<nat, Modified>, it: nat, added: set<nat>,
                      counted: set<nat>)
    requires it < |pool| && it in added && it !in counted
    requires Updated(pool, before, after, it, Descendants(pool, it) - added)
    requires forall t :: t in before ==> t < |pool| && t !in added && Covers(pool, t, counted, before[t])
    ensures forall t :: t in after ==> t < |pool| && t !in added && Covers(pool, t, counted + {it}, after[t])
  {
    hide Covers, Whole, Less;
    var done := Descendants(pool, it) - added;
    forall t | t in after ensures t < |pool| && t !in added && Covers(pool, t, counted + {it}, after[t]) {
      if t in done {
        assert it in Package(pool, t);
        if t in before { LessCovers(pool, t, counted, before[t], it); } else { FreshCovers(pool, t, counted, it); }
      } else {
        assert t in before;
        assert it !in Package(pool, t);
        LessCovers(pool, t, counted, before[t], it);
      }
    }
  }

  /** What holds while added transactions are taken into account one after the other: counted is the
      block before plus those already dealt with. */
  ghost predicate ExactSoFar(pool: Pool, mods: map<nat, Modified>, counted: set<nat>, added: set<nat>, failed: set<nat>)
  {
    && (forall t :: t in mods && t !in failed ==> t < |pool| && Exact(pool, t, counted, mods[t]))
    && (forall t: nat :: t < |pool| && t !in mods && t !in failed && t !in counted && t !in added ==>
          Package(pool, t) !! counted)
  }

  lemma UpdatedExact(pool: Pool, before: map<nat, Modified>, after: map<nat, Modified>, it: nat, added: set<nat>,
                     counted: set<nat>, failed: set<nat>)
    requires it < |pool| && it in added && it !in counted
    requires Updated(pool, before, after, it, Descendants(pool, it) - added)
    requires ExactSoFar(pool, before, counted, added, failed) && forall t :: t in before ==> t !in added
    requires forall t :: t in Descendants(pool, it) && t !in added ==> t !in counted
    ensures ExactSoFar(pool, after, counted + {it}, added, failed)
  {
    hide Exact, Whole, Less;
    var done := Descendants(pool, it) - added;
    forall t | t in after && t !in failed ensures t < |pool| && Exact(pool, t, counted + {it}, after[t]) {
      if t in done {
        assert it in Package(pool, t);
        if t !in before { WholeExact(pool, t, counted); }
        LessExact(pool, t, counted, if t in before then before[t] else Whole(pool, t), it);
      } else {
        assert t in before;
        LessExact(pool, t, counted, before[t], it);
        assert t !in added;
        assert it !in Package(pool, t);
      }
    }
    forall t: nat | t < |pool| && t !in after && t !in failed && t !in counted + {it} && t !in added
      ensures Package(pool, t) !! counted + {it}
    {
      assert t !in after.Keys && t !in before.Keys && t !in done;
    }
  }

  /** A fresh entry overestimates by exactly what was in the block already. */
  lemma FreshExcess(pool: Pool, t: nat, inBlock: set<nat>, it: nat)
    requires t < |pool| && it < |pool| && it in Package(pool, t) && it !in inBlock
    ensures var m, known := Less(pool, Whole(pool, t), it), Package(pool, t) * inBlock;
      && m.size == TotalSize(pool, Remaining(pool, t, inBlock + {it})) + TotalSize(pool, known)
      && m.sigops == TotalSigops(pool, Remaining(pool, t, inBlock + {it})) + TotalSigops(pool, known)
  {
    hide Sum;
    var rest, known := Remaining(pool, t, inBlock + {it}), Package(pool, t) * inBlock;
    assert Package(pool, t) == (rest + known) + {it};
    SumAdd(SizeOf(pool), rest + known, it, |pool|);
    SumAdd(SigopsOf(pool), rest + known, it, |pool|);
    SumSplit(SizeOf(pool), rest, known, |pool|);
    SumSplit(SigopsOf(pool), rest, known, |pool|);
  }

  // ----- packages that failed -----

  /** What a block may hold: weight, bytes where they are counted, and witnesses. */
  datatype Bounds = Bounds(weight: nat, size: nat, countsSize: bool, mayWitness: bool)

  /** A transaction that may not be in the block. */
  predicate Barred(pool: Pool, t: nat, bounds: Bounds)
    requires t < |pool|
  {
    !pool[t].isFinal || (pool[t].hasWitness && !bounds.mayWitness)
  }

  /** Met in the mempool, with the figures cached there, the package would be refused. */
  ghost predicate Refused(pool: Pool, t: nat, inBlock: set<nat>, bounds: Bounds)
    requires t < |pool|
  {
    var rest := Remaining(pool, t, inBlock);
    || COINBASE_WEIGHT + TotalWeight(pool, inBlock) + WITNESS_SCALE_FACTOR * Whole(pool, t).size >= bounds.weight
    || COINBASE_SIGOPS + TotalSigops(pool, inBlock) + Whole(pool, t).sigops >= MAX_BLOCK_SIGOPS_COST
    || (exists x :: x in rest && x < |pool| && Barred(pool, x, bounds))
    || (bounds.countsSize &&
        COINBASE_SIZE + TotalSerialized(pool, inBlock) + TotalSerialized(pool, rest) >= bounds.size)
  }

  /** Tested with exact figures, what is left of the package does not fit or may not enter. */
  ghost predicate Unfit(pool: Pool, t: nat, inBlock: set<nat>, bounds: Bounds)
    requires t < |pool|
  {
    var rest := Remaining(pool, t, inBlock);
    || COINBASE_WEIGHT + TotalWeight(pool, inBlock) + WITNESS_SCALE_FACTOR * TotalSize(pool, rest) >= bounds.weight
    || COINBASE_SIGOPS + TotalSigops(pool, inBlock) + TotalSigops(pool, rest) >= MAX_BLOCK_SIGOPS_COST
    || (exists x :: x in rest && x < |pool| && Barred(pool, x, bounds))
    || (bounds.countsSize &&
        COINBASE_SIZE + TotalSerialized(pool, inBlock) + TotalSerialized(pool, rest) >= bounds.size)
  }

  /** The package was unfit at some stage of the block. */
  ghost predicate GivenUp(pool: Pool, t: nat, inBlock: set<nat>, bounds: Bounds)
    requires t < |pool|
  {
    exists past: set<nat> :: past <= inBlock && Unfit(pool, t, past, bounds)
  }

  lemma GivenUpLater(pool: Pool, t: nat, inBlock: set<nat>, later: set<nat>, bounds: Bounds)
    requires t < |pool| && inBlock <= later && GivenUp(pool, t, inBlock, bounds)
    ensures GivenUp(pool, t, later, bounds)
  {
    hide Unfit;
  }

  /** In the block by now, or given up at some stage. */
  ghost predicate Settled(pool: Pool, t: nat, inBlock: set<nat>, bounds: Bounds)
  {
    t < |pool| && (t in inBlock || GivenUp(pool, t, inBlock, bounds))
  }

  /** Every transaction considered so far is settled or still has a modified entry. */
  ghost predicate Considered(pool: Pool, order: seq<nat>, mi: nat, mods: map<nat, Modified>, failed: set<nat>,
                             inBlock: set<nat>, bounds: Bounds)
    requires mi <= |order|
  {
    && (forall t :: t in failed ==> Settled(pool, t, inBlock, bounds))
    && (forall i :: 0 <= i < mi ==> order[i] in mods || Settled(pool, order[i], inBlock, bounds))
  }

  lemma NothingConsidered(pool: Pool, order: seq<nat>, mods: map<nat, Modified>, inBlock: set<nat>, bounds: Bounds)
    ensures Considered(pool, order, 0, mods, {}, inBlock, bounds)
  {
  }

  lemma Skipped(pool: Pool, order: seq<nat>, mi: nat, mods: map<nat, Modified>, failed: set<nat>, inBlock: set<nat>,
                bounds: Bounds)
    requires mi < |order| && order[mi] < |pool| && Considered(pool, order, mi, mods, failed, inBlock, bounds)
    requires order[mi] in mods || order[mi] in inBlock || order[mi] in failed
    ensures Considered(pool, order, mi + 1, mods, failed, inBlock, bounds)
  {
  }

  lemma AllSettled(pool: Pool, order: seq<nat>, mi: nat, mods: map<nat, Modified>, failed: set<nat>,
                   inBlock: set<nat>, bounds: Bounds)
    requires mi <= |order| && Considered(pool, order, mi, mods, failed, inBlock, bounds)
    ensures forall t :: t in failed ==> Settled(pool, t, inBlock, bounds)
    ensures mods.Keys == {} ==> forall i :: 0 <= i < mi ==> Settled(pool, order[i], inBlock, bounds)
  {
    assert mods.Keys == {} ==> forall t :: t !in mods;
  }

  /** A package that was turned down and given up. */
  lemma Rejected(pool: Pool, order: seq<nat>, mi: nat, mods: map<nat, Modified>, failed: set<nat>, inBlock: set<nat>,
                 bounds: Bounds, iter: nat, usingModified: bool)
    requires mi <= |order| && Considered(pool, order, mi, mods, failed, inBlock, bounds)
    requires Settled(pool, iter, inBlock, bounds)
    requires if usingModified then iter in mods else mi < |order| && iter == order[mi]
    ensures usingModified ==> Considered(pool, order, mi, mods - {iter}, failed + {iter}, inBlock, bounds)
    ensures !usingModified ==> Considered(pool, order, mi + 1, mods, failed, inBlock, bounds)
  {
    hide Settled;
  }

  /** A package that has been added. */
  lemma StillConsidered(pool: Pool, order: seq<nat>, mi: nat, mods: map<nat, Modified>, after: map<nat, Modified>,
                        failed: set<nat>, before: set<nat>, package: set<nat>, bounds: Bounds, iter: nat,
                        usingModified: bool)
    requires mi <= |order| && Considered(pool, order, mi, mods, failed, before, bounds)
    requires iter in package && (forall t :: t in package ==> t < |pool|) && mods.Keys - package <= after.Keys
    requires !usingModified ==> mi < |order| && iter == order[mi]
    ensures Considered(pool, order, if usingModified then mi else mi + 1, after, failed, before + package, bounds)
  {
    hide GivenUp;
    var inBlock := before + package;
    forall t: nat | t < |pool| && GivenUp(pool, t, before, bounds) ensures GivenUp(pool, t, inBlock, bounds) {
      GivenUpLater(pool, t, before, inBlock, bounds);
    }
    forall i | 0 <= i < mi ensures order[i] in after || Settled(pool, order[i], inBlock, bounds) {
      if order[i] in mods && order[i] !in package { assert order[i] in mods.Keys - package; }
    }
  }

  /** What was given up once would also be refused now, with the figures cached in the mempool. */
  lemma GivenUpRefused(pool: Pool, t: nat, inBlock: set<nat>, bounds: Bounds)
    requires t < |pool| && (forall x :: x in inBlock ==> x < |pool| && !Barred(pool, x, bounds))
    requires GivenUp(pool, t, inBlock, bounds)
    ensures Refused(pool, t, inBlock, bounds)
  {
    hide Sum, Barred, Refused;
    var past: set<nat> :| past <= inBlock && Unfit(pool, t, past, bounds);
    UnfitRefused(pool, t, past, bounds);
    RefusedAgain(pool, t, past, inBlock, bounds);
  }

  lemma UnfitRefused(pool: Pool, t: nat, inBlock: set<nat>, bounds: Bounds)
    requires t < |pool| && Unfit(pool, t, inBlock, bounds)
    ensures Refused(pool, t, inBlock, bounds)
  {
    hide Sum, Barred;
    ExactBelowWhole(pool, t, inBlock, Figures(pool, Remaining(pool, t, inBlock)));
  }

  /** What a block and the rest of a package take together does not shrink as the block grows. */
  lemma TogetherGrows(f: nat -> nat, package: set<nat>, inBlock: set<nat>, later: set<nat>, n: nat)
    requires inBlock <= later
    ensures Sum(f, inBlock, n) + Sum(f, package - inBlock, n) <= Sum(f, later, n) + Sum(f, package - later, n)
  {
    hide Sum;
    SumSplit(f, inBlock, package - inBlock, n);
    SumSplit(f, later, package - later, n);
    SumMono(f, inBlock + (package - inBlock), later + (package - later), n);
  }

  /** Once refused, always refused: the block only grows, and takes no transaction that is barred. */
  lemma RefusedAgain(pool: Pool, t: nat, inBlock: set<nat>, later: set<nat>, bounds: Bounds)
    requires t < |pool| && inBlock <= later && forall x :: x in later ==> x < |pool| && !Barred(pool, x, bounds)
    requires Refused(pool, t, inBlock, bounds)
    ensures Refused(pool, t, later, bounds)
  {
    hide Sum, Whole, Package, Barred;
    SumMono(WeightOf(pool), inBlock, later, |pool|);
    SumMono(SigopsOf(pool), inBlock, later, |pool|);
    TogetherGrows(SerializedOf(pool), Package(pool, t), inBlock, later, |pool|);
    var rest, after := Remaining(pool, t, inBlock), Remaining(pool, t, later);
    assert forall x :: x in rest && x < |pool| && Barred(pool, x, bounds) ==> x in after;
  }

  /** Figures that are exact are at most those cached in the mempool. */
  lemma ExactBelowWhole(pool: Pool, t: nat, inBlock: set<nat>, m: Modified)
    requires t < |pool| && Exact(pool, t, inBlock, m)
    ensures m.size <= Whole(pool, t).size && m.sigops <= Whole(pool, t).sigops
  {
    hide Sum;
    SumMono(SizeOf(pool), Remaining(pool, t, inBlock), Package(pool, t), |pool|);
    SumMono(SigopsOf(pool), Remaining(pool, t, inBlock), Package(pool, t), |pool|);
  }
}
