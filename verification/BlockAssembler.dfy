/** The block assembler: an object that fills a block template from the mempool, first by priority and
    then by packages of a transaction with its unconfirmed ancestors. */
module BlockAssembler {
  import opened BlockTemplate

  class Assembler {
    const pool: Pool
    const fIncludeWitness: bool
    const nBlockMaxWeight: nat
    const nBlockMaxSize: nat
    var fNeedSizeAccounting: bool
    var block: seq<nat>
    var inBlock: set<nat>
    var nBlockWeight: nat
    var nBlockSize: nat
    var nBlockTx: nat
    var nBlockSigOpsCost: nat
    var nFees: int
    var lastFewTxs: nat
    var blockFinished: bool

    /** The block is in a valid order and the counters are exact. */
    ghost predicate Accounts()
      reads this
    {
      && PoolOk(pool) && Ordered(pool, block) && Listed(block, inBlock)
      && nBlockTx == |block|
      && nBlockWeight == COINBASE_WEIGHT + TotalWeight(pool, inBlock)
      && nBlockSigOpsCost == COINBASE_SIGOPS + TotalSigops(pool, inBlock) && nFees == TotalFees(pool, inBlock)
      && (fNeedSizeAccounting ==> nBlockSize == COINBASE_SIZE + TotalSerialized(pool, inBlock))
    }

    /** The limits hold strictly as soon as there is any transaction; the reserve for the coinbase
        alone may already reach the smallest permitted weight and size limits. */
    ghost predicate Limits()
      reads this
    {
      && nBlockSigOpsCost < MAX_BLOCK_SIGOPS_COST
      && (block != [] ==> nBlockWeight < nBlockMaxWeight && (fNeedSizeAccounting ==> nBlockSize < nBlockMaxSize))
      && nBlockMaxWeight >= COINBASE_WEIGHT && nBlockMaxSize >= COINBASE_SIZE
    }

    /** Every transaction is final and of a kind that the block may contain. */
    ghost predicate Allowed()
      reads this
    {
      forall t :: t in inBlock ==> t < |pool| && pool[t].isFinal && (pool[t].hasWitness ==> fIncludeWitness)
    }

    ghost predicate Valid()
      reads this
    {
      Accounts() && Limits() && Allowed()
    }

    constructor (pool: Pool, fIncludeWitness: bool, maxWeight: nat, maxSize: nat)
      requires PoolOk(pool)
      ensures Valid() && block == [] && this.pool == pool && !blockFinished
      ensures fNeedSizeAccounting == AccountsForSize(maxSize)
      ensures this.fIncludeWitness == fIncludeWitness && nBlockSize == COINBASE_SIZE
      ensures inBlock == {} && nBlockWeight == COINBASE_WEIGHT && nBlockSigOpsCost == COINBASE_SIGOPS
      ensures nBlockMaxWeight == WeightLimit(maxWeight) && nBlockMaxSize == SizeLimit(maxSize)
    {
      this.pool, this.fIncludeWitness := pool, fIncludeWitness;
      nBlockMaxWeight := WeightLimit(maxWeight);
      nBlockMaxSize := SizeLimit(maxSize);
      fNeedSizeAccounting := SizeLimit(maxSize) < MAX_BLOCK_SERIALIZED_SIZE - 1000;
      block, inBlock := [], {};
      nBlockSize, nBlockWeight, nBlockSigOpsCost, nBlockTx := COINBASE_SIZE, COINBASE_WEIGHT, COINBASE_SIGOPS, 0;
      nFees, lastFewTxs, blockFinished := 0, 0, false;
      new;
      SumEmpty(WeightOf(pool), |pool|);
      SumEmpty(SigopsOf(pool), |pool|);
      SumEmpty(SerializedOf(pool), |pool|);
      AmountEmpty(FeeOf(pool), |pool|);
    }

    method AddToBlock(t: nat)
      requires Accounts() && t < |pool| && t !in inBlock && pool[t].ancestors <= inBlock
      modifies this
      ensures Accounts() && block == old(block) + [t] && inBlock == old(inBlock) + {t}
      ensures nBlockWeight == old(nBlockWeight) + pool[t].weight
      ensures nBlockSigOpsCost == old(nBlockSigOpsCost) + pool[t].sigops
      ensures nBlockSize == old(nBlockSize) + (if fNeedSizeAccounting then pool[t].serialized else 0)
      ensures fNeedSizeAccounting == old(fNeedSizeAccounting) && blockFinished == old(blockFinished)
      ensures lastFewTxs == old(lastFewTxs)
    {
      hide Sum, Amount, Ordered, Listed, PoolOk;
      OrderedNext(pool, block, inBlock, t);
      SumAdd(WeightOf(pool), inBlock, t, |pool|);
      SumAdd(SigopsOf(pool), inBlock, t, |pool|);
      SumAdd(SerializedOf(pool), inBlock, t, |pool|);
      AmountAdd(FeeOf(pool), inBlock, t, |pool|);
      block := block + [t];
      if fNeedSizeAccounting { nBlockSize := nBlockSize + pool[t].serialized; }
      nBlockWeight := nBlockWeight + pool[t].weight;
      nBlockTx := nBlockTx + 1;
      nBlockSigOpsCost := nBlockSigOpsCost + pool[t].sigops;
      nFees := nFees + pool[t].fee;
      inBlock := inBlock + {t};
    }

    predicate TestPackage(size: int, sigops: int)
      reads this
    {
      && nBlockWeight + WITNESS_SCALE_FACTOR * size < nBlockMaxWeight
      && nBlockSigOpsCost + sigops < MAX_BLOCK_SIGOPS_COST
    }

    /** Final, and without a witness where the block may not have one. */
    predicate AllMayEnter(package: set<nat>)
      requires forall t :: t in package ==> t < |pool|
      reads this
    {
      forall t :: t in package ==> pool[t].isFinal && (pool[t].hasWitness ==> fIncludeWitness)
    }

    /** Finality, witness and serialized size of a package's transactions. */
    method TestPackageTransactions(package: set<nat>) returns (ok: bool)
      requires forall t :: t in package ==> t < |pool|
      ensures ok <==> AllMayEnter(package) && (fNeedSizeAccounting && package != {} ==>
          nBlockSize + TotalSerialized(pool, package) < nBlockMaxSize)
    {
      hide Sum, Amount;
      var left, potential := package, nBlockSize;
      ghost var done: set<nat> := {};
      SumEmpty(SerializedOf(pool), |pool|);
      while left != {}
        invariant left <= package && done == package - left
        invariant forall t :: t in done ==> pool[t].isFinal && (pool[t].hasWitness ==> fIncludeWitness)
        invariant fNeedSizeAccounting ==> potential == nBlockSize + TotalSerialized(pool, done) && (done != {} ==>
            potential < nBlockMaxSize)
        decreases left
      {
        var t :| t in left;
        if !pool[t].isFinal { return false; }
        if !fIncludeWitness && pool[t].hasWitness { return false; }
        if fNeedSizeAccounting {
          SumAdd(SerializedOf(pool), done, t, |pool|);
          SumMono(SerializedOf(pool), done + {t}, package, |pool|);
          if potential + pool[t].serialized >= nBlockMaxSize { return false; }
          potential := potential + pool[t].serialized;
        }
        SumAdd(SerializedOf(pool), done, t, |pool|);
        left := left - {t};
        done := done + {t};
      }
      assert done == package;
      ok := true;
    }

    /** The package ordered by number of ancestors. */
    method SortForBlock(package: set<nat>) returns (sorted: seq<nat>)
      requires forall t :: t in package ==> t < |pool|
      ensures forall t :: t in sorted <==> t in package
      ensures forall i, j :: 0 <= i < j < |sorted| ==> sorted[i] != sorted[j]
      ensures forall i, j :: 0 <= i < j < |sorted| ==>
        sorted[i] < |pool| && sorted[j] < |pool| && |pool[sorted[i]].ancestors| <= |pool[sorted[j]].ancestors|
    {
      var left := package;
      sorted := [];
      while left != {}
        invariant left <= package && forall t :: t in sorted <==> t in package && t !in left
        invariant forall i :: 0 <= i < |sorted| ==> sorted[i] < |pool|
        invariant forall i, j :: 0 <= i < j < |sorted| ==> sorted[i] != sorted[j]
        invariant forall i, j :: 0 <= i < j < |sorted| ==> |pool[sorted[i]].ancestors| <= |pool[sorted[j]].ancestors|
        invariant forall i, t :: 0 <= i < |sorted| && t in left ==> |pool[sorted[i]].ancestors| <= |pool[t].ancestors|
        decreases left
      {
        var best := Fewest(left);
        sorted := sorted + [best];
        left := left - {best};
      }
    }

    method Fewest(left: set<nat>) returns (best: nat)
      requires left != {} && forall t :: t in left ==> t < |pool|
      ensures best in left && forall t :: t in left ==> |pool[best].ancestors| <= |pool[t].ancestors|
    {
      best :| best in left;
      var rest := left - {best};
      while rest != {}
        invariant rest <= left && best in left
        invariant forall t :: t in left && t !in rest ==> |pool[best].ancestors| <= |pool[t].ancestors|
        decreases rest
      {
        var t :| t in rest;
        if |pool[t].ancestors| < |pool[best].ancestors| { best := t; }
        rest := rest - {t};
      }
    }

    /** Takes newly added transactions into account for everything that depends on them. Figures never
        fall below what is left of a package, and are exact unless the transaction failed before. */
    method UpdatePackagesForAdded(added: set<nat>, mods: map<nat, Modified>, ghost before: set<nat>,
                                  ghost failed: set<nat>)
        returns (mods1: map<nat, Modified>)
      requires forall t :: t in added ==> t < |pool|
      requires forall t :: t in mods ==> t < |pool| && t !in added && Covers(pool, t, before, mods[t])
      requires before !! added && ExactSoFar(pool, mods, before, added, failed)
      requires forall it, t :: it in added && t in Descendants(pool, it) ==> t in added || t !in before
      ensures AllExact(pool, mods1, before + added, failed)
      ensures forall t :: t in mods1 ==> t < |pool| && t !in added && Covers(pool, t, before + added, mods1[t])
      ensures forall t :: t in mods1 && t !in mods ==> exists it :: it in added && it in pool[t].ancestors
      ensures mods.Keys <= mods1.Keys
    {
      hide Covers, Whole, Less, Updated, Exact, ExactSoFar, Descendants;
      mods1 := mods;
      var left := added;
      ghost var counted := before;
      while left != {}
        invariant left <= added && counted == before + (added - left)
        invariant forall t :: t in mods1 ==> t < |pool| && t !in added && Covers(pool, t, counted, mods1[t])
        invariant forall t :: t in mods1 && t !in mods ==> exists it :: it in added && it in pool[t].ancestors
        invariant ExactSoFar(pool, mods1, counted, added, failed) && mods.Keys <= mods1.Keys
        decreases left
      {
        var it :| it in left;
        ghost var start := mods1;
        mods1 := UpdateDescendants(it, added, mods1);
        UpdatedCovers(pool, start, mods1, it, added, counted);
        UpdatedKeys(pool, start, mods1, it, added);
        UpdatedExact(pool, start, mods1, it, added, counted, failed);
        left := left - {it};
        counted := counted + {it};
        assert counted == before + (added - left);
      }
      assert counted == before + added;
      ExactAtLast(pool, mods1, counted, added, failed);
    }

    method UpdateDescendants(it: nat, added: set<nat>, mods: map<nat, Modified>) returns (mods1: map<nat, Modified>)
      requires it < |pool|
      ensures Updated(pool, mods, mods1, it, Descendants(pool, it) - added)
    {
      hide Whole, Less, Updated;
      mods1 := mods;
      var left := Descendants(pool, it) - added;
      ghost var done: set<nat> := {};
      UpdatedNone(pool, mods, it);
      while left != {}
        invariant left <= Descendants(pool, it) - added && done == Descendants(pool, it) - added - left
        invariant Updated(pool, mods, mods1, it, done)
        decreases left
      {
        var d :| d in left;
        UpdatedNext(pool, mods, mods1, it, done, d);
        mods1 := UpdateOne(pool, mods1, it, d);
        left := left - {d};
        done := done + {d};
      }
      assert done == Descendants(pool, it) - added;
    }

    /** Adds a package that fits, ancestors first. */
    method AddPackage(iter: nat, package: set<nat>, sorted: seq<nat>)
      requires Valid() && iter < |pool| && package == Remaining(pool, iter, inBlock) && iter !in inBlock
      requires forall t :: t in sorted <==> t in package
      requires forall i, j :: 0 <= i < j < |sorted| ==> sorted[i] != sorted[j]
      requires forall i, j :: 0 <= i < j < |sorted| ==>
        sorted[i] < |pool| && sorted[j] < |pool| && |pool[sorted[i]].ancestors| <= |pool[sorted[j]].ancestors|
      requires forall t :: t in package ==> t < |pool| && pool[t].isFinal && (pool[t].hasWitness ==> fIncludeWitness)
      requires nBlockWeight + TotalWeight(pool, package) < nBlockMaxWeight
      requires nBlockSigOpsCost + TotalSigops(pool, package) < MAX_BLOCK_SIGOPS_COST
      requires fNeedSizeAccounting ==> nBlockSize + TotalSerialized(pool, package) < nBlockMaxSize
      modifies this
      ensures Valid() && inBlock == old(inBlock) + package && fNeedSizeAccounting == old(fNeedSizeAccounting)
      ensures old(block) <= block
    {
      hide Sum, Amount, Ordered, Listed, PoolOk, TotalWeight, TotalSigops, TotalSerialized;
      ghost var start := inBlock;
      AllLeft(sorted, package);
      for i := 0 to |sorted|
        invariant Accounts() && Allowed() && nBlockMaxWeight >= COINBASE_WEIGHT && nBlockMaxSize >= COINBASE_SIZE
        invariant (i > 0 ==> block != []) && fNeedSizeAccounting == old(fNeedSizeAccounting) && old(block) <= block
        invariant inBlock == start + Members(sorted[..i])
        invariant nBlockWeight + TotalWeight(pool, Members(sorted[i..])) < nBlockMaxWeight
        invariant nBlockSigOpsCost + TotalSigops(pool, Members(sorted[i..])) < MAX_BLOCK_SIGOPS_COST
        invariant fNeedSizeAccounting ==> nBlockSize + TotalSerialized(pool, Members(sorted[i..])) < nBlockMaxSize
      {
        SortedIsValid(pool, iter, start, sorted, i);
        NextMember(pool, sorted, i);
        InSorted(sorted, package, i);
        AncestorsThere(pool, sorted, i, start, inBlock);
        AddToBlock(sorted[i]);
      }
      AllAdded(sorted, package, iter);
    }

    /** The next package to consider: the next one of the mempool, or a modified one. Its figures are
        exact, unless it is a modified one that failed before. */
    method Choose(order: seq<nat>, mi: nat, mods: map<nat, Modified>, ghost failed: set<nat>)
        returns (iter: nat, usingModified: bool, figures: Modified)
      requires mi <= |order| && (mi == |order| ==> mods.Keys != {}) && ModifiedOk(pool, mods, inBlock)
      requires AllExact(pool, mods, inBlock, failed)
      requires mi < |order| ==> order[mi] < |pool| && order[mi] !in mods && order[mi] !in inBlock
      requires mi < |order| ==> order[mi] !in failed
      ensures iter < |pool| && iter !in inBlock && Covers(pool, iter, inBlock, figures)
      ensures if usingModified then iter in mods else mi < |order| && iter == order[mi]
      ensures iter !in failed ==> Exact(pool, iter, inBlock, figures)
    {
      hide Sum, Amount, Covers, Whole, Exact, AllExact, Package;
      var keys := mods.Keys;
      var modifiedIsBetter: bool := *;
      if mi == |order| || (keys != {} && modifiedIsBetter) {
        iter :| iter in keys;
        usingModified, figures := true, mods[iter];
        ExactFor(pool, mods, inBlock, failed, iter);
      } else {
        iter := order[mi];
        usingModified, figures := false, Whole(pool, iter);
        ExactFor(pool, mods, inBlock, failed, iter);
        WholeCovers(pool, iter, inBlock);
        WholeExact(pool, iter, inBlock);
      }
    }

    ghost function Room(): Bounds
      reads this
    {
      Bounds(nBlockMaxWeight, nBlockMaxSize, fNeedSizeAccounting, fIncludeWitness)
    }

    /** A package outside the block with figures that pay less than the minimum for their size; the figures
        are those of what is left of it, unless it was given up before. */
    ghost predicate TooCheap(t: nat, minFee: nat -> int, given: set<nat>)
      reads this
    {
      && t < |pool| && t !in inBlock
      && exists m: Modified :: 0 <= m.size && Covers(pool, t, inBlock, m) && m.fees < minFee(m.size)
           && (t !in given ==> Exact(pool, t, inBlock, m))
    }

    /** Selects packages until nothing is left to consider, or the one considered pays too little: less than
        the fee asked for its size. Which of two packages is considered first is left open. */
    method AddPackageTxs(order: seq<nat>, minFee: nat -> int)
        returns (stopped: bool, ghost given: set<nat>, ghost stages: seq<Stage>)
      requires Valid() && forall i :: 0 <= i < |order| ==> order[i] < |pool|
      modifies this
      ensures Valid() && old(inBlock) <= inBlock && fNeedSizeAccounting == old(fNeedSizeAccounting)
      ensures old(block) <= block
      ensures forall t :: t in given ==> Settled(pool, t, inBlock, Room())
      ensures stopped ==> exists t :: TooCheap(t, minFee, given)
      ensures Paid(pool, stages, old(inBlock), inBlock, minFee, given)
      ensures !stopped ==> forall i :: 0 <= i < |order| ==> Settled(pool, order[i], inBlock, Room())
    {
      hide Sum, Amount, Ordered, Listed, PoolOk, Covers, Whole, Exact, ExactSoFar, AllExact, Descendants, Package;
      hide Considered, Settled, TooCheap, Valid, Paid, StagePaid;
      stages := [];
      NothingPaid(pool, inBlock, minFee);
      var mods: map<nat, Modified> := map[];
      var failed: set<nat> := {};
      StartFacts();
      ExactAtFirst(pool, inBlock, failed);
      mods := UpdatePackagesForAdded(inBlock, mods, {}, failed);
      assert {} + inBlock == inBlock;
      var mi := 0;
      NothingConsidered(pool, order, mods, inBlock, Room());
      while mi < |order| || mods.Keys != {}
        invariant Valid() && 0 <= mi <= |order| && ModifiedOk(pool, mods, inBlock)
        invariant fNeedSizeAccounting == old(fNeedSizeAccounting) && old(block) <= block
        invariant old(inBlock) <= inBlock && AllExact(pool, mods, inBlock, failed)
        invariant Considered(pool, order, mi, mods, failed, inBlock, Room())
        invariant Paid(pool, stages, old(inBlock), inBlock, minFee, failed)
        decreases All(|pool|) - inBlock, |order| - mi, mods.Keys
      {
        if mi < |order| && (order[mi] in mods || order[mi] in inBlock || order[mi] in failed) {
          Skipped(pool, order, mi, mods, failed, inBlock, Room());
          mi := mi + 1;
          continue;
        }
        var iter, usingModified, figures := Choose(order, mi, mods, failed);
        ghost var mi0 := mi;
        if !usingModified { mi := mi + 1; }
        assert iter !in inBlock;
        CoversSize(iter, figures);
        if figures.fees < minFee(figures.size) {
          stopped, given := true, failed;
          StopsHere(iter, minFee, failed, figures);
          AllSettled(pool, order, mi0, mods, failed, inBlock, Room());
          return;
        }
        if !TestPackage(figures.size, figures.sigops) {
          TestFailed(order, mi0, mods, failed, iter, figures);
          TurnedDown(order, mi0, mods, failed, iter, usingModified, stages, old(inBlock), minFee);
          if usingModified {
            mods := mods - {iter};
            failed := failed + {iter};
          }
          continue;
        }
        var package := (pool[iter].ancestors - inBlock) + {iter};
        PackageFits(iter, package, figures);
        var ok := TestPackageTransactions(package);
        if !ok {
          TransactionsFailed(iter, package);
          TurnedDown(order, mi0, mods, failed, iter, usingModified, stages, old(inBlock), minFee);
          if usingModified {
            mods := mods - {iter};
            failed := failed + {iter};
          }
          continue;
        }
        ghost var before, mods0 := inBlock, mods;
        mods := Accept(iter, package, mods, failed);
        PaidNow(pool, iter, before, figures, minFee, failed);
        PaidNext(pool, stages, old(inBlock), before, minFee, failed, iter, figures);
        stages := stages + [Stage(iter, before, figures)];
        StillConsidered(pool, order, mi0, mods0, mods, failed, before, package, Room(), iter, usingModified);
      }
      stopped, given := false, failed;
      AllSettled(pool, order, mi, mods, failed, inBlock, Room());
    }

    /** What is known about the selection when a package is turned down. */
    lemma TurnedDown(order: seq<nat>, mi: nat, mods: map<nat, Modified>, failed: set<nat>, iter: nat,
                     usingModified: bool, stages: seq<Stage>, start: set<nat>, minFee: nat -> int)
      requires mi <= |order| && Considered(pool, order, mi, mods, failed, inBlock, Room())
      requires Settled(pool, iter, inBlock, Room()) && AllExact(pool, mods, inBlock, failed)
      requires ModifiedOk(pool, mods, inBlock) && Paid(pool, stages, start, inBlock, minFee, failed)
      requires if usingModified then iter in mods else mi < |order| && iter == order[mi]
      ensures usingModified ==>
        && Considered(pool, order, mi, mods - {iter}, failed + {iter}, inBlock, Room())
        && AllExact(pool, mods - {iter}, inBlock, failed + {iter}) && ModifiedOk(pool, mods - {iter}, inBlock)
        && Paid(pool, stages, start, inBlock, minFee, failed + {iter})
      ensures !usingModified ==> Considered(pool, order, mi + 1, mods, failed, inBlock, Room())
    {
      hide Considered, Settled, AllExact, Paid, Covers;
      Rejected(pool, order, mi, mods, failed, inBlock, Room(), iter, usingModified);
      if usingModified {
        ExactGivenUp(pool, mods, inBlock, failed, iter);
        PaidStill(pool, stages, start, inBlock, minFee, failed, iter);
      }
    }

    lemma StopsHere(iter: nat, minFee: nat -> int, failed: set<nat>, figures: Modified)
      requires iter < |pool| && iter !in inBlock && Covers(pool, iter, inBlock, figures) && figures.size >= 0
      requires figures.fees < minFee(figures.size) && (iter !in failed ==> Exact(pool, iter, inBlock, figures))
      ensures TooCheap(iter, minFee, failed)
    {
      hide Covers, Exact;
    }

    lemma CoversSize(iter: nat, figures: Modified)
      requires iter < |pool| && Covers(pool, iter, inBlock, figures)
      ensures figures.size >= 0
    {
    }

    /** Failing the test of the figures: they are exact, unless the package was given up before. */
    lemma TestFailed(order: seq<nat>, mi: nat, mods: map<nat, Modified>, failed: set<nat>, iter: nat, figures: Modified)
      requires Valid() && iter < |pool| && iter !in inBlock && mi <= |order|
      requires Considered(pool, order, mi, mods, failed, inBlock, Room())
      requires iter !in failed ==> Exact(pool, iter, inBlock, figures)
      requires !TestPackage(figures.size, figures.sigops)
      ensures Settled(pool, iter, inBlock, Room())
    {
      hide Sum, Amount, Ordered, Listed, PoolOk;
      if iter !in failed { assert Unfit(pool, iter, inBlock, Room()); }
    }

    lemma TransactionsFailed(iter: nat, package: set<nat>)
      requires Valid() && iter < |pool| && package == Remaining(pool, iter, inBlock)
      requires forall t :: t in package ==> t < |pool|
      requires !(AllMayEnter(package) &&
        (fNeedSizeAccounting ==> nBlockSize + TotalSerialized(pool, package) < nBlockMaxSize))
      ensures Settled(pool, iter, inBlock, Room())
    {
      hide Sum, Amount, Ordered, Listed, PoolOk, Package;
      if !AllMayEnter(package) {
        var x :| x in package && (!pool[x].isFinal || (pool[x].hasWitness && !fIncludeWitness));
        assert Barred(pool, x, Room());
      }
      assert Unfit(pool, iter, inBlock, Room());
    }

    /** Adds a package that has passed all tests and updates what depends on it. */
    method Accept(iter: nat, package: set<nat>, mods: map<nat, Modified>, ghost failed: set<nat>)
        returns (mods1: map<nat, Modified>)
      requires Valid() && iter < |pool| && package == Remaining(pool, iter, inBlock) && iter !in inBlock
      requires forall t :: t in package ==> t < |pool| && pool[t].isFinal && (pool[t].hasWitness ==> fIncludeWitness)
      requires nBlockWeight + TotalWeight(pool, package) < nBlockMaxWeight
      requires nBlockSigOpsCost + TotalSigops(pool, package) < MAX_BLOCK_SIGOPS_COST
      requires fNeedSizeAccounting ==> nBlockSize + TotalSerialized(pool, package) < nBlockMaxSize
      requires ModifiedOk(pool, mods, inBlock) && AllExact(pool, mods, inBlock, failed)
      modifies this
      ensures Valid() && inBlock == old(inBlock) + package && fNeedSizeAccounting == old(fNeedSizeAccounting)
      ensures old(block) <= block
      ensures ModifiedOk(pool, mods1, inBlock) && AllExact(pool, mods1, inBlock, failed)
      ensures mods.Keys - package <= mods1.Keys
    {
      hide Sum, Amount, Ordered, Listed, PoolOk, Covers, Whole, Exact, ExactSoFar, AllExact, Descendants;
      var sorted := SortForBlock(package);
      ghost var before, blockBefore := inBlock, block;
      AddPackage(iter, package, sorted);
      var rest := mods - package;
      StillCovered(pool, rest, before, package);
      ExactWithout(pool, mods, before, package, failed);
      DependentsOutside(pool, blockBefore, before, package);
      mods1 := UpdatePackagesForAdded(package, rest, before, failed);
      NewOutside(mods1, rest, before, package, blockBefore);
    }

    // ----- selection by priority -----

    method IsStillDependent(iter: nat) returns (r: bool)
      requires iter < |pool|
      ensures r <==> !(pool[iter].parents <= inBlock)
    {
      var left := pool[iter].parents;
      while left != {}
        invariant left <= pool[iter].parents && pool[iter].parents - left <= inBlock
        decreases left
      {
        var p :| p in left;
        if p !in inBlock { return true; }
        left := left - {p};
      }
      return false;
    }

    /** The transaction is final and stays strictly below every limit. */
    predicate Fits(iter: nat)
      requires iter < |pool|
      reads this
    {
      && pool[iter].isFinal
      && nBlockWeight + pool[iter].weight < nBlockMaxWeight
      && nBlockSigOpsCost + pool[iter].sigops < MAX_BLOCK_SIGOPS_COST
      && (fNeedSizeAccounting ==> nBlockSize + pool[iter].serialized < nBlockMaxSize)
    }

    /** The first limit that the transaction would reach is close, or too many have been tried near it. */
    predicate AsGoodAsFull(iter: nat, tries: nat)
      requires iter < |pool|
      reads this
    {
      if nBlockWeight + pool[iter].weight >= nBlockMaxWeight then nBlockWeight > nBlockMaxWeight - 400 || tries > 50
      else if fNeedSizeAccounting && nBlockSize + pool[iter].serialized >= nBlockMaxSize then
        nBlockSize > nBlockMaxSize - 100 || tries > 50
      else
        nBlockSigOpsCost + pool[iter].sigops >= MAX_BLOCK_SIGOPS_COST && nBlockSigOpsCost > MAX_BLOCK_SIGOPS_COST - 8
    }

    /** It does not fit, and the block is close to the limit without being as good as full. */
    predicate NearlyFull(iter: nat, tries: nat)
      requires iter < |pool|
      reads this
    {
      && !AsGoodAsFull(iter, tries)
      && if nBlockWeight + pool[iter].weight >= nBlockMaxWeight then nBlockWeight > nBlockMaxWeight - 4000
         else
           && fNeedSizeAccounting && nBlockSize + pool[iter].serialized >= nBlockMaxSize
           && nBlockSize > nBlockMaxSize - 1000
    }

    /** Whether a single transaction fits; also notices when the block is as good as full. */
    method TestForBlock(iter: nat) returns (ok: bool)
      requires iter < |pool| && nBlockMaxWeight >= COINBASE_WEIGHT && nBlockMaxSize >= COINBASE_SIZE
      modifies this`lastFewTxs, this`blockFinished
      ensures ok <==> Fits(iter)
      ensures blockFinished <==> old(blockFinished) || (!ok && AsGoodAsFull(iter, old(lastFewTxs)))
      ensures lastFewTxs == old(lastFewTxs) + if NearlyFull(iter, old(lastFewTxs)) then 1 else 0
    {
      if nBlockWeight + pool[iter].weight >= nBlockMaxWeight {
        if nBlockWeight > nBlockMaxWeight - 400 || lastFewTxs > 50 {
          blockFinished := true;
          return false;
        }
        if nBlockWeight > nBlockMaxWeight - 4000 { lastFewTxs := lastFewTxs + 1; }
        return false;
      }
      if fNeedSizeAccounting && nBlockSize + pool[iter].serialized >= nBlockMaxSize {
        if nBlockSize > nBlockMaxSize - 100 || lastFewTxs > 50 {
          blockFinished := true;
          return false;
        }
        if nBlockSize > nBlockMaxSize - 1000 { lastFewTxs := lastFewTxs + 1; }
        return false;
      }
      if nBlockSigOpsCost + pool[iter].sigops >= MAX_BLOCK_SIGOPS_COST {
        if nBlockSigOpsCost > MAX_BLOCK_SIGOPS_COST - 8 { blockFinished := true; }
        return false;
      }
      ok := pool[iter].isFinal;
    }

    /** Adds a transaction whose parents are in the block, if it fits. */
    method AddIfFits(iter: nat) returns (ok: bool)
      requires Valid() && fNeedSizeAccounting && iter < |pool| && iter !in inBlock && pool[iter].parents <= inBlock
      requires pool[iter].hasWitness ==> fIncludeWitness
      modifies this
      ensures Valid() && fNeedSizeAccounting && ok == old(Fits(iter))
      ensures inBlock == if ok then old(inBlock) + {iter} else old(inBlock)
      ensures block == if ok then old(block) + [iter] else old(block)
      ensures old(Counted()).weight <= Counted().weight && old(Counted()).sigops <= Counted().sigops
      ensures old(Counted()).size <= Counted().size && (!ok ==> Counted() == old(Counted()))
      ensures ok ==> blockFinished == old(blockFinished)
    {
      hide Sum, Amount, Ordered, Listed, PoolOk;
      ok := TestForBlock(iter);
      if ok {
        ParentsSuffice(pool, block, inBlock, iter);
        AddToBlock(iter);
      }
    }

    /** Puts the children of a transaction that wait back into the queue. */
    method WakeChildren(iter: nat, queue: set<nat>, waiting: set<nat>) returns (queue1: set<nat>, waiting1: set<nat>)
      ensures queue1 == queue + waiting * Children(pool, iter) && waiting1 == waiting - Children(pool, iter)
    {
      var children := Children(pool, iter);
      queue1, waiting1 := queue, waiting;
      while children != {}
        invariant children <= Children(pool, iter)
        invariant queue1 == queue + waiting * (Children(pool, iter) - children)
        invariant waiting1 == waiting - (Children(pool, iter) - children)
        decreases children
      {
        var child :| child in children;
        if child in waiting1 {
          queue1 := queue1 + {child};
          waiting1 := waiting1 - {child};
        }
        children := children - {child};
      }
      assert Children(pool, iter) - {} == Children(pool, iter);
    }

    lemma OutNow(iter: nat)
      requires iter < |pool|
      ensures !fIncludeWitness && pool[iter].hasWitness ==> OutForGood(pool, iter, Counted(), Room())
      ensures fNeedSizeAccounting && !Fits(iter) ==> OutForGood(pool, iter, Counted(), Room())
    {
    }

    ghost function Counted(): Counts
      reads this
    {
      Counts(nBlockWeight, nBlockSigOpsCost, nBlockSize)
    }

    /** Nothing outside the block can come in. */
    ghost predicate NothingMore()
      reads this
    {
      forall t: nat :: t < |pool| && t !in inBlock ==>
        !(pool[t].parents <= inBlock) || OutForGood(pool, t, Counted(), Room())
    }

    /** Selects single transactions whose parents are in the block, until a share of the block is filled or a
        transaction is added whose priority is too low to go without a fee. In which order transactions
        come is left open. */
    method AddPriorityTxs(prioritySize: nat, allowFree: nat -> bool)
      requires Valid() && block == [] && nBlockSize == COINBASE_SIZE
      modifies this
      ensures Valid() && fNeedSizeAccounting == old(fNeedSizeAccounting)
      ensures prioritySize == 0 ==> block == []
      ensures nBlockSize == COINBASE_SIZE + TotalSerialized(pool, inBlock)
      ensures var limit := if prioritySize < nBlockMaxSize then prioritySize else nBlockMaxSize;
        0 < limit && nBlockSize < limit && !blockFinished && (forall t :: t in inBlock ==> allowFree(t)) ==>
          NothingMore()
      ensures blockFinished && !old(blockFinished) ==> SomeOut(pool, inBlock, Counted(), Room())
      ensures InTime(pool, block, if prioritySize < nBlockMaxSize then prioritySize else nBlockMaxSize, allowFree)
    {
      hide Sum, Amount, Ordered, Listed, PoolOk, OutForGood;
      var limit := if prioritySize < nBlockMaxSize then prioritySize else nBlockMaxSize;
      NothingYet(pool, block, inBlock);
      if limit == 0 { return; }
      var saved := fNeedSizeAccounting;
      fNeedSizeAccounting := true;
      SelectByPriority(limit, allowFree);
      fNeedSizeAccounting := saved;
      OutAnyway(pool, Counted(), nBlockMaxWeight, nBlockMaxSize, saved, fIncludeWitness);
    }

    /** The selection itself, with bytes counted. */
    method SelectByPriority(limit: nat, allowFree: nat -> bool)
      requires Valid() && fNeedSizeAccounting && inBlock == {} && block == []
      modifies this
      ensures Valid() && fNeedSizeAccounting && InTime(pool, block, limit, allowFree)
      ensures nBlockSize < limit && !blockFinished && (forall t :: t in inBlock ==> allowFree(t)) ==> NothingMore()
      ensures blockFinished && !old(blockFinished) ==> SomeOut(pool, inBlock, Counted(), Room())
    {
      hide Valid, Queued, OutForGood, Children, Fits, SomeOut;
      var queue, waiting: set<nat> := All(|pool|), {};
      AllQueued(pool, Counted(), Room());
      while queue != {} && !blockFinished
        invariant Valid() && fNeedSizeAccounting && Queued(pool, queue, waiting, inBlock, Counted(), Room())
        invariant blockFinished && !old(blockFinished) ==> SomeOut(pool, inBlock, Counted(), Room())
        invariant (forall t :: t in block ==> allowFree(t)) && (block != [] ==> nBlockSize < limit)
        decreases All(|pool|) - inBlock, queue
      {
        var iter :| iter in queue;
        FromQueue(pool, queue, waiting, inBlock, Counted(), Room(), iter);
        OutNow(iter);
        assert queue == (queue - {iter}) + {iter};
        queue := queue - {iter};
        assert iter !in inBlock;
        if !fIncludeWitness && pool[iter].hasWitness { continue; }
        var dependent := IsStillDependent(iter);
        if dependent {
          waiting := waiting + {iter};
          continue;
        }
        ghost var before, counts, block0 := inBlock, Counted(), block;
        SizeIs();
        var ok := AddIfFits(iter);
        if ok {
          assert block[..|block| - 1] == block0;
          if nBlockSize >= limit || !allowFree(iter) {
            return;
          }
          AddedFromQueue(pool, queue, waiting, before, counts, Counted(), Room(), iter);
          queue, waiting := WakeChildren(iter, queue, waiting);
        } else {
          FirstOut(pool, inBlock, Counted(), Room(), iter);
        }
      }
      if queue == {} { QueueEmpty(pool, waiting, inBlock, Counted(), Room()); }
      SizeIs();
      AllInTime(pool, block, limit, allowFree);
    }

    lemma SizeIs()
      requires Valid() && fNeedSizeAccounting
      ensures nBlockSize == COINBASE_SIZE + TotalSerialized(pool, Members(block))
    {
      hide Sum, Ordered;
      assert inBlock == Members(block);
    }

    /** A package that passes the test stays within the limits. */
    lemma PackageFits(iter: nat, package: set<nat>, figures: Modified)
      requires Valid() && iter < |pool| && iter !in inBlock && package == (pool[iter].ancestors - inBlock) + {iter}
      requires Covers(pool, iter, inBlock, figures) && TestPackage(figures.size, figures.sigops)
      ensures package == Remaining(pool, iter, inBlock) && forall t :: t in package ==> t < |pool|
      ensures nBlockWeight + TotalWeight(pool, package) < nBlockMaxWeight
      ensures nBlockSigOpsCost + TotalSigops(pool, package) < MAX_BLOCK_SIGOPS_COST
    {
      hide Sum, Amount, Ordered, Listed;
      assert package == Remaining(pool, iter, inBlock);
      assert EntryOk(pool, iter);
      WeightBound(pool, package);
    }

    lemma StartFacts()
      requires Valid()
      ensures forall t :: t in inBlock ==> t < |pool|
    {
    }

    /** Transactions that newly depend on the block are not in it. */
    lemma NewOutside(mods: map<nat, Modified>, rest: map<nat, Modified>, before: set<nat>, package: set<nat>,
                     blockBefore: seq<nat>)
      requires Ordered(pool, blockBefore) && Listed(blockBefore, before) && before !! package
      requires forall t :: t in rest ==> t !in before
      requires forall t :: t in mods ==> t < |pool| && t !in package && Covers(pool, t, before + package, mods[t])
      requires forall t :: t in mods && t !in rest ==> exists it :: it in package && it in pool[t].ancestors
      ensures ModifiedOk(pool, mods, before + package)
    {
      hide Covers, Ordered, Listed;
      forall t | t in mods ensures t !in before {
        if t !in rest {
          var it :| it in package && it in pool[t].ancestors;
          if t in before { BlockClosed(pool, blockBefore, before, t); }
        }
      }
    }
  }

  /** What depends on newcomers was not in the block. */
  lemma DependentsOutside(pool: Pool, block: seq<nat>, before: set<nat>, package: set<nat>)
    requires Ordered(pool, block) && Listed(block, before) && before !! package
    ensures forall it, t :: it in package && t in Descendants(pool, it) ==> t in package || t !in before
  {
    forall it, t | it in package && t in Descendants(pool, it) ensures t in package || t !in before {
      if t in before { BlockClosed(pool, block, before, t); }
    }
  }

  lemma StillCovered(pool: Pool, mods: map<nat, Modified>, before: set<nat>, package: set<nat>)
    requires ModifiedOk(pool, mods, before) && forall t :: t in mods ==> t !in package
    ensures forall t :: t in mods ==> t < |pool| && t !in package && t !in before && Covers(pool, t, before, mods[t])
  {
  }

  lemma AllAdded(sorted: seq<nat>, package: set<nat>, iter: nat)
    requires (forall t :: t in sorted <==> t in package) && iter in package
    ensures Members(sorted[..|sorted|]) == package && sorted != []
  {
    assert sorted[..|sorted|] == sorted;
    assert iter in sorted;
  }

  /** The numbers below n. */
  function All(n: nat): (r: set<nat>)
    ensures forall t: nat :: t in r <==> t < n
  {
    if n == 0 then {} else All(n - 1) + {n - 1}
  }

  function Members(s: seq<nat>): (r: set<nat>)
    ensures forall t :: t in r <==> t in s
  {
    set t | t in s
  }

  lemma AllLeft(sorted: seq<nat>, package: set<nat>)
    requires forall t :: t in sorted <==> t in package
    ensures Members(sorted[0..]) == package && Members(sorted[..0]) == {}
  {
    assert sorted[0..] == sorted;
  }

  lemma InSorted(sorted: seq<nat>, package: set<nat>, i: nat)
    requires i < |sorted| && forall t :: t in sorted <==> t in package
    ensures sorted[i] in package
  {
    assert sorted[i] in sorted;
  }

  lemma NextMember(pool: Pool, sorted: seq<nat>, i: nat)
    requires i < |sorted| && sorted[i] < |pool| && forall i, j :: 0 <= i < j < |sorted| ==> sorted[i] != sorted[j]
    ensures Members(sorted[..i + 1]) == Members(sorted[..i]) + {sorted[i]} && sorted[i] !in Members(sorted[..i])
    ensures TotalWeight(pool, Members(sorted[i..])) == pool[sorted[i]].weight + TotalWeight(pool,
        Members(sorted[i + 1..]))
    ensures TotalSigops(pool, Members(sorted[i..])) == pool[sorted[i]].sigops + TotalSigops(pool,
        Members(sorted[i + 1..]))
    ensures TotalSerialized(pool, Members(sorted[i..])) == pool[sorted[i]].serialized + TotalSerialized(pool,
        Members(sorted[i + 1..]))
  {
    hide Sum, Amount, Members;
    var rest := Members(sorted[i + 1..]);
    assert sorted[..i + 1] == sorted[..i] + [sorted[i]];
    assert sorted[i..] == [sorted[i]] + sorted[i + 1..];
    assert Members(sorted[..i + 1]) == Members(sorted[..i]) + {sorted[i]};
    assert Members(sorted[i..]) == rest + {sorted[i]};
    SumAdd(WeightOf(pool), rest, sorted[i], |pool|);
    SumAdd(SigopsOf(pool), rest, sorted[i], |pool|);
    SumAdd(SerializedOf(pool), rest, sorted[i], |pool|);
  }

  lemma AncestorsThere(pool: Pool, sorted: seq<nat>, i: nat, start: set<nat>, inBlock: set<nat>)
    requires i < |sorted| && sorted[i] < |pool| && inBlock == start + Members(sorted[..i])
    requires forall a :: a in pool[sorted[i]].ancestors ==> a in start || a in sorted[..i]
    ensures pool[sorted[i]].ancestors <= inBlock
  {
  }

  const MAX_BLOCK_WEIGHT: nat := 4000000
  const MAX_BLOCK_SERIALIZED_SIZE: nat := 4000000

  function Clamp(lo: nat, x: nat, hi: nat): nat
  {
    var y := if x < hi then x else hi;
    if y < lo then lo else y
  }

  /** The weight asked for, within 4,000 and 3,996,000. */
  function WeightLimit(maxWeight: nat): (r: nat)
    ensures r == if maxWeight < 4000 then 4000 else if maxWeight > 3996000 then 3996000 else maxWeight
  {
    Clamp(4000, maxWeight, MAX_BLOCK_WEIGHT - 4000)
  }

  /** The size asked for, within 1,000 and 3,999,000. */
  function SizeLimit(maxSize: nat): (r: nat)
    ensures r == if maxSize < 1000 then 1000 else if maxSize > 3999000 then 3999000 else maxSize
  {
    Clamp(1000, maxSize, MAX_BLOCK_SERIALIZED_SIZE - 1000)
  }

  function BoundsFor(maxWeight: nat, maxSize: nat, mayWitness: bool): Bounds
  {
    Bounds(WeightLimit(maxWeight), SizeLimit(maxSize), AccountsForSize(maxSize), mayWitness)
  }

  /** Bytes are only counted when they can be the tighter limit. */
  predicate AccountsForSize(maxSize: nat) { SizeLimit(maxSize) < MAX_BLOCK_SERIALIZED_SIZE - 1000 }

  lemma ExactAtLast(pool: Pool, mods: map<nat, Modified>, counted: set<nat>, added: set<nat>, failed: set<nat>)
    requires ExactSoFar(pool, mods, counted, added, failed) && added <= counted
    ensures AllExact(pool, mods, counted, failed)
  {
    hide Exact;
  }

  /** Before the first update nothing has been counted. */
  lemma ExactAtFirst(pool: Pool, added: set<nat>, failed: set<nat>)
    ensures ExactSoFar(pool, map[], {}, added, failed)
  {
  }

  lemma ExactWithout(pool: Pool, mods: map<nat, Modified>, before: set<nat>, package: set<nat>, failed: set<nat>)
    requires AllExact(pool, mods, before, failed)
    ensures ExactSoFar(pool, mods - package, before, package, failed)
  {
    hide Exact, Package;
  }

  lemma ExactFor(pool: Pool, mods: map<nat, Modified>, inBlock: set<nat>, failed: set<nat>, t: nat)
    requires AllExact(pool, mods, inBlock, failed) && t < |pool| && t !in inBlock
    ensures t in mods && t !in failed ==> Exact(pool, t, inBlock, mods[t])
    ensures t !in mods && t !in failed ==> Package(pool, t) !! inBlock
  {
    hide Exact, Package;
  }

  /** Giving up on a transaction. */
  lemma ExactGivenUp(pool: Pool, mods: map<nat, Modified>, inBlock: set<nat>, failed: set<nat>, t: nat)
    requires AllExact(pool, mods, inBlock, failed)
    ensures AllExact(pool, mods - {t}, inBlock, failed + {t})
  {
    hide Exact, Package;
  }

  lemma UpdatedNone(pool: Pool, mods: map<nat, Modified>, it: nat)
    requires it < |pool|
    ensures Updated(pool, mods, mods, it, {})
  {
  }

  lemma UpdatedKeys(pool: Pool, before: map<nat, Modified>, after: map<nat, Modified>, it: nat, added: set<nat>)
    requires it < |pool| && it in added && Updated(pool, before, after, it, Descendants(pool, it) - added)
    ensures forall t :: t in after && t !in before ==> t < |pool| && it in pool[t].ancestors
    ensures before.Keys <= after.Keys
  {
    assert forall t :: t in after ==> t in after.Keys;
  }

  /** The counters of a block. */
  datatype Counts = Counts(weight: nat, sigops: nat, size: nat)

  /** The transaction may not enter or does not fit, bytes counted. */
  ghost predicate OutForGood(pool: Pool, t: nat, counts: Counts, bounds: Bounds)
    requires t < |pool|
  {
    || Barred(pool, t, bounds)
    || counts.weight + pool[t].weight >= bounds.weight
    || counts.sigops + pool[t].sigops >= MAX_BLOCK_SIGOPS_COST
    || counts.size + pool[t].serialized >= bounds.size
  }

  ghost predicate SomeOut(pool: Pool, inBlock: set<nat>, counts: Counts, bounds: Bounds)
  {
    exists t: nat :: t < |pool| && t !in inBlock && OutForGood(pool, t, counts, bounds)
  }

  lemma FirstOut(pool: Pool, inBlock: set<nat>, counts: Counts, bounds: Bounds, t: nat)
    requires t < |pool| && t !in inBlock && OutForGood(pool, t, counts, bounds)
    ensures SomeOut(pool, inBlock, counts, bounds)
  {
  }

  /** Selection has stopped in time: everything but the last one may go without a fee, and before the last one came
      the share was not filled. */
  ghost predicate InTime(pool: Pool, block: seq<nat>, limit: nat, allowFree: nat -> bool)
  {
    |block| >= 2 ==>
      && (forall k :: 0 <= k < |block| - 1 ==> allowFree(block[k]))
      && COINBASE_SIZE + TotalSerialized(pool, Members(block[..|block| - 1])) < limit
  }

  lemma AllInTime(pool: Pool, block: seq<nat>, limit: nat, allowFree: nat -> bool)
    requires forall t :: t in block ==> allowFree(t)
    requires block != [] ==> COINBASE_SIZE + TotalSerialized(pool, Members(block)) < limit
    ensures InTime(pool, block, limit, allowFree)
  {
    hide Sum;
    if |block| >= 2 {
      SumMono(SerializedOf(pool), Members(block[..|block| - 1]), Members(block), |pool|);
    }
  }

  /** One package that was added: whose it is, the block before, and the figures it was added with. */
  datatype Stage = Stage(iter: nat, before: set<nat>, figures: Modified)

  /** The block was extended package by package, each paying at least the fee asked for its size; the figures are those
      of what was left of the package, unless it was given up at some time. */
  ghost predicate Paid(pool: Pool, stages: seq<Stage>, start: set<nat>, inBlock: set<nat>, minFee: nat -> int,
                       given: set<nat>)
  {
    && (if stages == [] then inBlock == start else stages[0].before == start)
    && (forall k :: 0 <= k < |stages| ==> StagePaid(pool, stages[k], minFee, given))
    && (forall k :: 0 <= k < |stages| ==> Extends(pool, stages[k], NextBlock(stages, k, inBlock)))
  }

  /** The block after a stage. */
  function NextBlock(stages: seq<Stage>, k: nat, inBlock: set<nat>): set<nat>
    requires k < |stages|
  {
    if k + 1 < |stages| then stages[k + 1].before else inBlock
  }

  /** A stage adds what is left of its package. */
  predicate Extends(pool: Pool, s: Stage, after: set<nat>)
  {
    s.iter < |pool| && after == s.before + Remaining(pool, s.iter, s.before)
  }

  ghost predicate StagePaid(pool: Pool, s: Stage, minFee: nat -> int, given: set<nat>)
  {
    && s.iter < |pool| && s.figures.size >= 0 && s.figures.fees >= minFee(s.figures.size)
    && Covers(pool, s.iter, s.before, s.figures) && (s.iter !in given ==> Exact(pool, s.iter, s.before, s.figures))
  }

  lemma PaidNow(pool: Pool, iter: nat, before: set<nat>, figures: Modified, minFee: nat -> int, given: set<nat>)
    requires iter < |pool| && figures.size >= 0 && figures.fees >= minFee(figures.size)
    requires Covers(pool, iter, before, figures) && (iter !in given ==> Exact(pool, iter, before, figures))
    ensures StagePaid(pool, Stage(iter, before, figures), minFee, given)
  {
    hide Covers, Exact;
  }

  lemma NothingPaid(pool: Pool, inBlock: set<nat>, minFee: nat -> int)
    ensures Paid(pool, [], inBlock, inBlock, minFee, {})
  {
  }

  lemma PaidStill(pool: Pool, stages: seq<Stage>, start: set<nat>, inBlock: set<nat>, minFee: nat -> int,
                  given: set<nat>, t: nat)
    requires Paid(pool, stages, start, inBlock, minFee, given)
    ensures Paid(pool, stages, start, inBlock, minFee, given + {t})
  {
    hide Covers, Exact, Extends;
    forall k | 0 <= k < |stages| ensures StagePaid(pool, stages[k], minFee, given + {t}) {
      assert StagePaid(pool, stages[k], minFee, given);
    }
  }

  lemma PaidNext(pool: Pool, stages: seq<Stage>, start: set<nat>, inBlock: set<nat>, minFee: nat -> int,
                 given: set<nat>, iter: nat, figures: Modified)
    requires iter < |pool| && Paid(pool, stages, start, inBlock, minFee, given)
    requires StagePaid(pool, Stage(iter, inBlock, figures), minFee, given)
    ensures Paid(pool, stages + [Stage(iter, inBlock, figures)], start, inBlock + Remaining(pool, iter, inBlock),
                 minFee, given)
  {
    hide StagePaid, Extends;
    var more, after := stages + [Stage(iter, inBlock, figures)], inBlock + Remaining(pool, iter, inBlock);
    ExtendsNow(pool, more[|stages|], after);
    forall k | 0 <= k < |more|
      ensures StagePaid(pool, more[k], minFee, given) && Extends(pool, more[k], NextBlock(more, k, after))
    {
      if k < |stages| {
        assert more[k] == stages[k] && NextBlock(more, k, after) == NextBlock(stages, k, inBlock);
        assert StagePaid(pool, stages[k], minFee, given) && Extends(pool, stages[k], NextBlock(stages, k, inBlock));
      }
    }
  }

  lemma ExtendsNow(pool: Pool, s: Stage, after: set<nat>)
    requires s.iter < |pool| && after == s.before + Remaining(pool, s.iter, s.before)
    ensures Extends(pool, s, after)
  {
  }

  /** What selection by priority leaves: it has filled its share or come to a transaction whose priority is too
      low to go without a fee, or found one that does not fit, or whatever is outside cannot come in. */
  ghost predicate PriorityDone(pool: Pool, block: seq<nat>, limit: nat, allowFree: nat -> bool, bounds: Bounds)
  {
    var inBlock := Members(block);
    var counts := Counts(COINBASE_WEIGHT + TotalWeight(pool, inBlock), COINBASE_SIGOPS + TotalSigops(pool, inBlock),
                         COINBASE_SIZE + TotalSerialized(pool, inBlock));
    || (limit == 0 && block == [])
    || (limit > 0 && counts.size >= limit)
    || (limit > 0 && exists t :: t in block && !allowFree(t))
    || (limit > 0 && SomeOut(pool, inBlock, counts, bounds))
    || (limit > 0 && forall t: nat :: t < |pool| && t !in block ==>
         !(pool[t].parents <= inBlock) || OutForGood(pool, t, counts, bounds))
  }

  /** What has been taken off the queue is in the block, waits for a parent or is out for good. */
  ghost predicate Queued(pool: Pool, queue: set<nat>, waiting: set<nat>, inBlock: set<nat>, counts: Counts,
                         bounds: Bounds)
  {
    && queue <= All(|pool|) && waiting <= All(|pool|) && queue !! waiting && inBlock !! queue && inBlock !! waiting
    && (forall t :: t in waiting ==> t < |pool| && !(pool[t].parents <= inBlock))
    && (forall t: nat :: t < |pool| && t !in queue && t !in waiting && t !in inBlock ==>
          OutForGood(pool, t, counts, bounds))
  }

  lemma AllQueued(pool: Pool, counts: Counts, bounds: Bounds)
    ensures Queued(pool, All(|pool|), {}, {}, counts, bounds)
  {
  }

  lemma FromQueue(pool: Pool, queue: set<nat>, waiting: set<nat>, inBlock: set<nat>, counts: Counts, bounds: Bounds,
                  iter: nat)
    requires Queued(pool, queue, waiting, inBlock, counts, bounds) && iter in queue
    ensures iter < |pool| && iter !in inBlock
    ensures OutForGood(pool, iter, counts, bounds) ==> Queued(pool, queue - {iter}, waiting, inBlock, counts, bounds)
    ensures !(pool[iter].parents <= inBlock) ==>
      Queued(pool, queue - {iter}, waiting + {iter}, inBlock, counts, bounds)
  {
  }

  lemma AddedFromQueue(pool: Pool, queue: set<nat>, waiting: set<nat>, inBlock: set<nat>, counts: Counts,
                       more: Counts, bounds: Bounds, iter: nat)
    requires Queued(pool, queue + {iter}, waiting, inBlock, counts, bounds) && iter !in queue && iter < |pool|
    requires counts.weight <= more.weight && counts.sigops <= more.sigops && counts.size <= more.size
    ensures var c := Children(pool, iter);
      Queued(pool, queue + waiting * c, waiting - c, inBlock + {iter}, more, bounds)
  {
  }

  lemma QueueEmpty(pool: Pool, waiting: set<nat>, inBlock: set<nat>, counts: Counts, bounds: Bounds)
    requires Queued(pool, {}, waiting, inBlock, counts, bounds)
    ensures forall t: nat :: t < |pool| && t !in inBlock ==>
      !(pool[t].parents <= inBlock) || OutForGood(pool, t, counts, bounds)
  {
  }

  lemma OutAnyway(pool: Pool, counts: Counts, weight: nat, size: nat, counting: bool, mayWitness: bool)
    ensures forall t: nat :: t < |pool| ==>
      (OutForGood(pool, t, counts, Bounds(weight, size, true, mayWitness)) <==>
       OutForGood(pool, t, counts, Bounds(weight, size, counting, mayWitness)))
  {
  }

  function Children(pool: Pool, t: nat): set<nat> { set c | c in All(|pool|) && t in pool[c].parents }

  lemma NothingYet(pool: Pool, block: seq<nat>, inBlock: set<nat>)
    requires block == [] && Listed(block, inBlock)
    ensures inBlock == {} && TotalSerialized(pool, inBlock) == 0
  {
    SumEmpty(SerializedOf(pool), |pool|);
  }

  /** A whole template: by priority first, then by packages. It stays strictly below the weight limit
      exactly when the option asks for more than the reserve of the coinbase, which fills the smallest
      permitted limit by itself; likewise for the size, where bytes are counted. */
  method CreateTemplate(pool: Pool, order: seq<nat>, fIncludeWitness: bool, maxWeight: nat, maxSize: nat,
                        prioritySize: nat, allowFree: nat -> bool, minFee: nat -> int)
      returns (block: seq<nat>, fees: int, stopped: bool, ghost first: nat, ghost given: set<nat>,
               ghost stages: seq<Stage>)
    requires PoolOk(pool) && forall i :: 0 <= i < |order| ==> order[i] < |pool|
    ensures Ordered(pool, block) && fees == TotalFees(pool, Members(block))
    ensures forall t :: t in block ==> pool[t].isFinal && (pool[t].hasWitness ==> fIncludeWitness)
    ensures COINBASE_SIGOPS + TotalSigops(pool, Members(block)) < MAX_BLOCK_SIGOPS_COST
    ensures COINBASE_WEIGHT + TotalWeight(pool, Members(block)) <= WeightLimit(maxWeight)
    ensures COINBASE_WEIGHT + TotalWeight(pool, Members(block)) < WeightLimit(maxWeight) <==>
        maxWeight > COINBASE_WEIGHT
    ensures maxWeight <= COINBASE_WEIGHT ==> block == []
    ensures AccountsForSize(maxSize) ==>
      (COINBASE_SIZE + TotalSerialized(pool, Members(block)) < SizeLimit(maxSize) <==> maxSize > COINBASE_SIZE)
    ensures AccountsForSize(maxSize) && maxSize <= COINBASE_SIZE ==> block == []
    ensures !stopped ==> forall i :: 0 <= i < |order| ==>
      order[i] in block || GivenUp(pool, order[i], Members(block), BoundsFor(maxWeight, maxSize, fIncludeWitness))
    ensures first <= |block|
    ensures PriorityDone(pool, block[..first], Clamp(0, prioritySize, SizeLimit(maxSize)), allowFree,
                         BoundsFor(maxWeight, maxSize, fIncludeWitness))
    ensures InTime(pool, block[..first], Clamp(0, prioritySize, SizeLimit(maxSize)), allowFree)
    ensures Paid(pool, stages, Members(block[..first]), Members(block), minFee, given)
    ensures stopped ==> exists t: nat, m: Modified ::
      t < |pool| && t !in block && 0 <= m.size && Covers(pool, t, Members(block), m) && m.fees < minFee(m.size)
  {
    hide Sum, Amount, Ordered, PoolOk, TotalWeight, TotalSerialized, TotalSigops;
    var a := new Assembler(pool, fIncludeWitness, maxWeight, maxSize);
    a.AddPriorityTxs(prioritySize, allowFree);
    first := |a.block|;
    ghost var early := a.block;
    assert a.inBlock == Members(early);
    stopped, given, stages := a.AddPackageTxs(order, minFee);
    block, fees := a.block, a.nFees;
    assert block[..first] == early;
    assert a.inBlock == Members(block);
    NothingSelected(pool, block);
  }

  lemma NothingSelected(pool: Pool, block: seq<nat>)
    ensures block == [] ==> TotalWeight(pool, Members(block)) == 0 && TotalSerialized(pool, Members(block)) == 0
  {
    if block == [] {
      assert Members(block) == {};
      SumEmpty(WeightOf(pool), |pool|);
      SumEmpty(SerializedOf(pool), |pool|);
    }
  }

  /** Three transactions of size and weight one, the last one depending on the others. It fails when one of
      them is in the block. After the second one size two is noted for it, and it fails again, although
      what is left of it has size one and would fit. */
  method FreshTooLarge() returns (a: Assembler, noted: Modified)
    ensures a.Accounts() && a.inBlock == {0, 1} && |a.pool| == 3
    ensures noted.size == 2 && TotalSize(a.pool, Remaining(a.pool, 2, a.inBlock)) == 1
    ensures noted.sigops == 0 && !a.TestPackage(2, 0) && a.TestPackage(1, 0)
  {
    hide Sum, Amount, Ordered, Listed;
    var e := Entry(1, 1, 0, 1, 0, 0, true, false, {}, {});
    var pool := [e, e, e.(parents := {0, 1}, ancestors := {0, 1})];
    ThreeEntries(pool);
    a := new Assembler(pool, true, 4009, 750000);
    a.AddToBlock(0);
    var mods := a.UpdateDescendants(0, {0}, map[]);
    assert 2 in Descendants(pool, 0);
    assert mods[2].size == 2 && !a.TestPackage(mods[2].size, mods[2].sigops);
    mods := mods - {2};
    assert a.TestPackage(1, 0);
    a.AddToBlock(1);
    mods := a.UpdateDescendants(1, {1}, mods);
    assert 2 in Descendants(pool, 1);
    noted := mods[2];
  }

  lemma ThreeEntries(pool: Pool)
    requires |pool| == 3 && forall t :: 0 <= t < 3 ==> pool[t].size == pool[t].weight == 1 && pool[t].sigops == 0
    requires forall t :: 0 <= t < 2 ==> pool[t].parents == pool[t].ancestors == {}
    requires pool[2].parents == pool[2].ancestors == {0, 1}
    ensures PoolOk(pool) && Whole(pool, 2).size == 3 && Whole(pool, 2).sigops == 0
    ensures TotalSize(pool, Remaining(pool, 2, {0})) == 2 && TotalSigops(pool, Remaining(pool, 2, {0})) == 0
    ensures TotalSize(pool, Remaining(pool, 2, {0, 1})) == 1
  {
    assert Package(pool, 2) == {0, 1, 2} && Remaining(pool, 2, {0}) == {1, 2} && Remaining(pool, 2, {0, 1}) == {2};
    SumThree(SizeOf(pool), {0, 1, 2});
    SumThree(SizeOf(pool), {1, 2});
    SumThree(SizeOf(pool), {2});
    SumThree(SigopsOf(pool), {0, 1, 2});
    SumThree(SigopsOf(pool), {1, 2});
  }

  lemma SumThree(f: nat -> nat, s: set<nat>)
    ensures Sum(f, s, 3) ==
      (if 0 in s then f(0) else 0) + (if 1 in s then f(1) else 0) + (if 2 in s then f(2) else 0)
  {
    assert Sum(f, s, 0) == 0;
    assert Sum(f, s, 1) == if 0 in s then f(0) else 0;
    assert Sum(f, s, 2) == Sum(f, s, 1) + if 1 in s then f(1) else 0;
  }
}
