/** Unspent outputs, and write-back caches of them stacked on a database. */
module CoinsModel {

  /** One output; a spent output has the null value. */
  datatype TxOut = TxOut(value: int, script: seq<nat>)
  {
    predicate IsNull() { value == -1 }
  }

  const NULL_OUT := TxOut(-1, [])

  type Txid = nat
  type BlockHash = nat
  const NULL_HASH: BlockHash := 0

  /** What is left of one transaction's outputs. */
  datatype Coins = Coins(coinBase: bool, vout: seq<TxOut>, height: int, version: int)
  {
    predicate IsPruned() { forall k :: 0 <= k < |vout| ==> vout[k].IsNull() }

    predicate IsAvailable(n: nat) { n < |vout| && !vout[n].IsNull() }

    /** No spent output at the end. */
    predicate IsClean() { |vout| > 0 ==> !vout[|vout| - 1].IsNull() }
  }

  const NO_COINS := Coins(false, [], 0, 0)

  /** Drops the spent outputs at the end. */
  function Trimmed(vout: seq<TxOut>): (r: seq<TxOut>)
    ensures r <= vout
    ensures |r| > 0 ==> !r[|r| - 1].IsNull()
    ensures forall k :: |r| <= k < |vout| ==> vout[k].IsNull()
  {
    if |vout| > 0 && vout[|vout| - 1].IsNull() then Trimmed(vout[..|vout| - 1]) else vout
  }

  /** What coins amount to: spent outputs at the end do not matter, and pruned coins are all alike. */
  function Norm(c: Coins): Coins
  {
    if c.IsPruned() then NO_COINS else c.(vout := Trimmed(c.vout))
  }

  lemma NormFacts(c: Coins)
    ensures Norm(c) == NO_COINS <==> c.IsPruned()
    ensures Norm(Norm(c)) == Norm(c) && Norm(c).IsClean()
    ensures c.IsClean() && !c.IsPruned() ==> Norm(c) == c
    ensures !c.IsPruned() ==> Norm(c) == c.(vout := Norm(c).vout) && Norm(c).vout <= c.vout
    ensures forall n: nat :: Norm(c).IsAvailable(n) <==> c.IsAvailable(n)
  {
  }

  method Cleanup(c: Coins) returns (r: Coins)
    ensures r.IsClean() && Norm(r) == Norm(c)
    ensures r == c.(vout := Trimmed(c.vout))
  {
    var vout := c.vout;
    while |vout| > 0 && vout[|vout| - 1].IsNull()
      invariant Trimmed(vout) == Trimmed(c.vout) && vout <= c.vout
    {
      vout := vout[..|vout| - 1];
    }
    r := c.(vout := vout);
  }

  /** Spending an available output removes that output and no other; nothing else about the coins changes. */
  method Spend(c: Coins, n: nat) returns (ok: bool, r: Coins)
    ensures ok <==> c.IsAvailable(n)
    ensures !ok ==> r == c
    ensures ok ==> r.IsClean() && r.vout <= c.vout[n := NULL_OUT]
    ensures ok ==> forall k: nat :: r.IsAvailable(k) <==> c.IsAvailable(k) && k != n
    ensures ok ==> forall k: nat :: r.IsAvailable(k) ==> r.vout[k] == c.vout[k]
    ensures r.coinBase == c.coinBase && r.height == c.height && r.version == c.version
  {
    if n >= |c.vout| || c.vout[n].IsNull() {
      return false, c;
    }
    ok := true;
    var spent := c.(vout := c.vout[n := NULL_OUT]);
    r := Cleanup(spent);
    forall k: nat ensures r.IsAvailable(k) <==> c.IsAvailable(k) && k != n {
      assert r.IsAvailable(k) <==> spent.IsAvailable(k);
    }
  }

  // ----- cache entries and stacks of caches -----

  datatype Entry = Entry(coins: Coins, isDirty: bool, isFresh: bool)

  type Cache = map<Txid, Entry>

  /** One cache: its entries, its best block, and the entry with an active modifier, if any. */
  datatype Level = Level(cache: Cache, best: BlockHash, modifier: set<Txid>)
  {
    predicate HasModifier() { modifier != {} }
  }

  type Database = map<Txid, Coins>

  /** What a stack of caches shows for a transaction. */
  function Shown(db: Database, levels: seq<Level>, t: Txid): Coins
  {
    if levels == [] then
      if t in db then Norm(db[t]) else NO_COINS
    else
      var top := levels[|levels| - 1];
      if t in top.cache then Norm(top.cache[t].coins) else Shown(db, levels[..|levels| - 1], t)
  }

  /** FRESH entries are pruned below, entries that are not DIRTY agree with what is below. */
  ghost predicate LevelOk(db: Database, below: seq<Level>, l: Level)
  {
    && (forall t :: t in l.cache ==>
          && (l.cache[t].isFresh ==> Shown(db, below, t) == NO_COINS)
          && (!l.cache[t].isDirty ==> Norm(l.cache[t].coins) == Shown(db, below, t))
          && (t !in l.modifier ==> l.cache[t].coins.IsClean()))
    && |l.modifier| <= 1
    && (forall t :: t in l.modifier ==> t in l.cache && l.cache[t].isDirty)
  }

  ghost predicate StackOk(db: Database, levels: seq<Level>)
  {
    && (forall t :: t in db ==> db[t].IsClean() && !db[t].IsPruned())
    && (forall i :: 0 <= i < |levels| ==> LevelOk(db, levels[..i], levels[i]))
    && (forall i :: 0 <= i < |levels| - 1 ==> levels[i].modifier == {})
  }

  /** Both stacks show the same at every level. */
  ghost predicate SameViews(db: Database, levels: seq<Level>, db': Database, levels': seq<Level>)
  {
    && |levels'| == |levels|
    && forall i, t: Txid :: 0 <= i <= |levels| ==> Shown(db', levels'[..i], t) == Shown(db, levels[..i], t)
  }

  lemma SameViewsTrans(db: Database, a: seq<Level>, b: seq<Level>, c: seq<Level>)
    ensures SameViews(db, a, db, a)
    ensures SameViews(db, a, db, b) && SameViews(db, b, db, c) ==> SameViews(db, a, db, c)
    ensures SameViews(db, a, db, b) ==> |b| == |a|
  {
  }

  ghost predicate SameShown(db: Database, levels: seq<Level>, db': Database, levels': seq<Level>)
  {
    forall t: Txid :: Shown(db', levels', t) == Shown(db, levels, t)
  }

  lemma ShownAt(db: Database, levels: seq<Level>, i: nat, t: Txid)
    requires i < |levels|
    ensures Shown(db, levels[..i + 1], t) ==
            if t in levels[i].cache then Norm(levels[i].cache[t].coins) else Shown(db, levels[..i], t)
  {
    assert levels[..i + 1][..i] == levels[..i];
  }

  /** A change at or below level i that the level's view does not reveal is not revealed further up. */
  lemma {:induction false} ShownAbove(db: Database, levels: seq<Level>, db': Database, levels': seq<Level>, i: nat,
                                      k: nat, t: Txid)
    requires |levels'| == |levels| && i <= k <= |levels|
    requires forall j :: i <= j < |levels| ==> levels'[j].cache == levels[j].cache
    requires Shown(db', levels'[..i], t) == Shown(db, levels[..i], t)
    ensures Shown(db', levels'[..k], t) == Shown(db, levels[..k], t)
  {
    if k > i {
      ShownAbove(db, levels, db', levels', i, k - 1, t);
      ShownAt(db, levels, k - 1, t);
      ShownAt(db', levels', k - 1, t);
    }
  }

  lemma ShownBelow(db: Database, levels: seq<Level>, levels': seq<Level>, i: nat, k: nat)
    requires |levels'| == |levels| && k <= i <= |levels| && levels'[..i] == levels[..i]
    ensures levels'[..k] == levels[..k]
  {
    assert levels[..k] == levels[..i][..k];
    assert levels'[..k] == levels'[..i][..k];
  }

  /** Replacing one level by another that shows the same: no view changes, and all is well
      if the new level itself is. */
  lemma ReplaceLevel(db: Database, levels: seq<Level>, i: nat, l: Level)
    requires StackOk(db, levels) && i < |levels| && LevelOk(db, levels[..i], l)
    requires i < |levels| - 1 ==> l.modifier == {}
    requires SameShown(db, levels[..i + 1], db, levels[i := l][..i + 1])
    ensures SameViews(db, levels, db, levels[i := l]) && StackOk(db, levels[i := l])
  {
    var levels' := levels[i := l];
    assert levels'[..i] == levels[..i];
    forall k, t: Txid | 0 <= k <= |levels|
      ensures Shown(db, levels'[..k], t) == Shown(db, levels[..k], t)
    {
      if k <= i {
        ShownBelow(db, levels, levels', i, k);
      } else {
        ShownAbove(db, levels, db, levels', i + 1, k, t);
      }
    }
    forall k | 0 <= k < |levels| ensures LevelOk(db, levels'[..k], levels'[k]) {
      assert LevelOk(db, levels[..k], levels[k]);
      if k == i { } else { assert levels'[k] == levels[k]; }
    }
  }

  // ----- writing one cache into the one below -----

  datatype MaybeEntry = Absent | Present(entry: Entry)

  function Lookup(c: Cache, t: Txid): MaybeEntry
  {
    if t in c then Present(c[t]) else Absent
  }

  /** What becomes of a parent's entry when the child's entries are written into it. */
  function Merged(parent: Cache, child: Cache, t: Txid): MaybeEntry
  {
    if t !in child || !child[t].isDirty then Lookup(parent, t)
    else if t !in parent then
      if child[t].isFresh && child[t].coins.IsPruned() then Absent
      else Present(Entry(child[t].coins, true, child[t].isFresh))
    else if parent[t].isFresh && child[t].coins.IsPruned() then Absent
    else Present(Entry(child[t].coins, true, parent[t].isFresh))
  }

  /** The child claims the parent has nothing to show, and the parent does. */
  predicate Misapplied(parent: Cache, child: Cache, t: Txid)
  {
    t in child && child[t].isDirty && t in parent && child[t].isFresh && !parent[t].coins.IsPruned()
  }

  ghost predicate IsMerge(parent: Cache, child: Cache, result: Cache)
  {
    forall t: Txid :: Lookup(result, t) == Merged(parent, child, t)
  }

  /** What was written and is pruned is not kept where nothing below needs to know of it. */
  lemma NoneFreshPruned(parent: Cache, child: Cache, result: Cache, t: Txid)
    requires IsMerge(parent, child, result) && t in child && child[t].isDirty
    ensures t in result ==> result[t].isDirty && !(result[t].isFresh && result[t].coins.IsPruned())
    ensures t in result ==> result[t].coins == child[t].coins
  {
    assert Lookup(result, t) == Merged(parent, child, t);
  }

  /** Writing a child into its parent: the flag check cannot fail, the parent stays in order,
      and it shows exactly what the child showed. */
  lemma MergeShows(db: Database, below: seq<Level>, parent: Level, child: Level, result: Cache)
    requires LevelOk(db, below, parent) && LevelOk(db, below + [parent], child)
    requires parent.modifier == {} && child.modifier == {} && IsMerge(parent.cache, child.cache, result)
    ensures forall t: Txid :: !Misapplied(parent.cache, child.cache, t)
    ensures LevelOk(db, below, parent.(cache := result))
    ensures SameShown(db, below + [parent] + [child], db, below + [parent.(cache := result)])
  {
    var merged := parent.(cache := result);
    forall t: Txid
      ensures !Misapplied(parent.cache, child.cache, t)
      ensures Shown(db, below + [merged], t) == Shown(db, below + [parent] + [child], t)
      ensures t in result ==>
                && (result[t].isFresh ==> Shown(db, below, t) == NO_COINS)
                && (!result[t].isDirty ==> Norm(result[t].coins) == Shown(db, below, t))
                && result[t].coins.IsClean()
    {
      MergeOne(db, below, parent, child, result, t);
    }
  }

  lemma MergeOne(db: Database, below: seq<Level>, parent: Level, child: Level, result: Cache, t: Txid)
    requires LevelOk(db, below, parent) && LevelOk(db, below + [parent], child)
    requires parent.modifier == {} && child.modifier == {} && Lookup(result, t) == Merged(parent.cache, child.cache, t)
    ensures !Misapplied(parent.cache, child.cache, t)
    ensures Shown(db, below + [parent.(cache := result)], t) == Shown(db, below + [parent] + [child], t)
    ensures t in result ==>
              && (result[t].isFresh ==> Shown(db, below, t) == NO_COINS)
              && (!result[t].isDirty ==> Norm(result[t].coins) == Shown(db, below, t))
              && result[t].coins.IsClean()
  {
    hide Trimmed;
    ShownOn(db, below, parent, t);
    ShownOn(db, below, parent.(cache := result), t);
    ShownOn(db, below + [parent], child, t);
    if t in parent.cache { NormFacts(parent.cache[t].coins); }
    if t in child.cache { NormFacts(child.cache[t].coins); }
  }

  lemma ShownOn(db: Database, below: seq<Level>, l: Level, t: Txid)
    ensures Shown(db, below + [l], t) == if t in l.cache then Norm(l.cache[t].coins) else Shown(db, below, t)
  {
    assert (below + [l])[..|below|] == below;
  }

  /** What becomes of the database when a cache is written into it. */
  function WriteBatch(db: Database, child: Cache): Database
  {
    map t | t in db.Keys + child.Keys &&
            (if t in child && child[t].isDirty then !child[t].coins.IsPruned() else t in db)
      :: if t in child && child[t].isDirty then child[t].coins else db[t]
  }

  lemma WriteBatchShows(db: Database, child: Level)
    requires LevelOk(db, [], child) && child.modifier == {}
    requires forall t :: t in db ==> db[t].IsClean() && !db[t].IsPruned()
    ensures var db' := WriteBatch(db, child.cache);
            && (forall t :: t in db' ==> db'[t].IsClean() && !db'[t].IsPruned())
            && SameShown(db, [child], db', [])
  {
    var db' := WriteBatch(db, child.cache);
    forall t: Txid ensures Shown(db', [], t) == Shown(db, [child], t) {
      ShownOn(db, [], child, t);
      assert [] + [child] == [child];
      if t in child.cache { NormFacts(child.cache[t].coins); }
    }
  }

  /** A level emptied after its contents were taken over below: the views above are untouched. */
  lemma FlushedStack(db: Database, levels: seq<Level>, db': Database, levels': seq<Level>, i: nat)
    requires StackOk(db, levels) && i < |levels| && |levels'| == |levels|
    requires forall t :: t in db' ==> db'[t].IsClean() && !db'[t].IsPruned()
    requires levels'[i] == levels[i].(cache := map[]) && levels[i].modifier == {}
    requires forall k :: 0 <= k < i ==> LevelOk(db', levels'[..k], levels'[k]) && levels'[k].modifier == {}
    requires forall k :: i < k < |levels| ==> levels'[k] == levels[k]
    requires SameShown(db, levels[..i + 1], db', levels'[..i])
    ensures StackOk(db', levels')
    ensures SameShown(db, levels[..i + 1], db', levels'[..i + 1])
    ensures forall k, t: Txid :: i < k <= |levels| ==> Shown(db', levels'[..k], t) == Shown(db, levels[..k], t)
  {
    var upto, upto' := levels[..i + 1], levels'[..i + 1];
    forall t: Txid ensures Shown(db', upto', t) == Shown(db, upto, t) {
      ShownAt(db', levels', i, t);
    }
    forall k, t: Txid | i < k <= |levels| ensures Shown(db', levels'[..k], t) == Shown(db, levels[..k], t) {
      ShownAbove(db, levels, db', levels', i + 1, k, t);
    }
    forall k | 0 <= k < |levels'| ensures LevelOk(db', levels'[..k], levels'[k]) {
      if k > i {
        assert LevelOk(db, levels[..k], levels[k]);
      }
    }
  }

  // ----- the best block -----

  ghost predicate SameBests(a: seq<Level>, b: seq<Level>)
  {
    |a| == |b| && forall k :: 0 <= k < |a| ==> a[k].best == b[k].best
  }

  function BestShown(dbBest: BlockHash, levels: seq<Level>): BlockHash
  {
    if levels == [] then dbBest
    else if levels[|levels| - 1].best != NULL_HASH then levels[|levels| - 1].best
    else BestShown(dbBest, levels[..|levels| - 1])
  }

  /** Caching the best block of below in a level that has none changes no best block. */
  lemma {:induction false} RememberBest(dbBest: BlockHash, levels: seq<Level>, i: nat, below: BlockHash)
    requires i < |levels| && levels[i].best == NULL_HASH && below == BestShown(dbBest, levels[..i])
    ensures forall k :: 0 <= k <= |levels| ==>
              BestShown(dbBest, levels[i := levels[i].(best := below)][..k]) == BestShown(dbBest, levels[..k])
  {
    var levels' := levels[i := levels[i].(best := below)];
    forall k | 0 <= k <= |levels| ensures BestShown(dbBest, levels'[..k]) == BestShown(dbBest, levels[..k]) {
      RememberBestAt(dbBest, levels, i, below, k);
    }
  }

  lemma {:induction false} RememberBestAt(dbBest: BlockHash, levels: seq<Level>, i: nat, below: BlockHash, k: nat)
    requires i < |levels| && levels[i].best == NULL_HASH && below == BestShown(dbBest, levels[..i]) && k <= |levels|
    ensures BestShown(dbBest, levels[i := levels[i].(best := below)][..k]) == BestShown(dbBest, levels[..k])
    decreases k
  {
    var levels' := levels[i := levels[i].(best := below)];
    if k <= i {
      assert levels'[..k] == levels[..k];
    } else {
      RememberBestAt(dbBest, levels, i, below, k - 1);
      assert levels'[..k][..k - 1] == levels'[..k - 1];
      assert levels[..k][..k - 1] == levels[..k - 1];
      if k - 1 == i {
        assert levels'[..i] == levels[..i];
      }
    }
  }

  /** After a flush, the cache below shows the best block this cache showed, unless this cache had none
      of its own and so wiped a different one below. */
  lemma FlushedBest(dbBest: BlockHash, below: seq<Level>, parent: Level, child: Level)
    ensures BestShown(dbBest, below + [parent.(best := child.best)]) == BestShown(dbBest, below + [parent] + [child])
            <==> child.best != NULL_HASH || parent.best == NULL_HASH || parent.best == BestShown(dbBest, below)
  {
    assert (below + [parent] + [child])[..|below| + 1] == below + [parent];
    assert (below + [parent])[..|below|] == below;
    assert (below + [parent.(best := child.best)])[..|below|] == below;
  }

  /** A cache that never learned its best block blanks the one its parent had. */
  lemma BestBlockBlanked(dbBest: BlockHash, best: BlockHash)
    requires best != NULL_HASH && best != dbBest
    ensures var parent, child := Level(map[], best, {}), Level(map[], NULL_HASH, {});
      BestShown(dbBest, [parent, child]) == best && BestShown(dbBest, [parent.(best := child.best)]) == dbBest
  {
    var parent, child := Level(map[], best, {}), Level(map[], NULL_HASH, {});
    FlushedBest(dbBest, [], parent, child);
    assert [parent, child][..1] == [parent] && [parent][..0] == [] && [parent.(best := child.best)][..0] == [];
  }
}
