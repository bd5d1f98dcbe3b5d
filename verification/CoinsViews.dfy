/** The stack of coin caches as an object: each operation of a cache at some level, reading
    through to the levels below it. */
module CoinsViews {
  import opened CoinsModel

  datatype Outcome = Done | Threw

  class ViewStack {
    var db: Database
    var dbBest: BlockHash
    var levels: seq<Level>

    ghost predicate Valid()
      reads this
    {
      StackOk(db, levels)
    }

    constructor (db: Database, best: BlockHash)
      requires forall t :: t in db ==> db[t].IsClean() && !db[t].IsPruned()
      ensures Valid() && this.db == db && levels == [] && dbBest == best
    {
      this.db, this.dbBest, this.levels := db, best, [];
    }

    /** A new, empty cache on top shows what was shown before. */
    method AddCache()
      requires Valid() && (|levels| > 0 ==> !levels[|levels| - 1].HasModifier())
      modifies this
      ensures Valid() && db == old(db) && dbBest == old(dbBest) && levels == old(levels) + [Level(map[], NULL_HASH, {})]
      ensures forall t: Txid :: Shown(db, levels, t) == old(Shown(db, levels, t))
    {
      var l := Level(map[], NULL_HASH, {});
      levels := levels + [l];
      forall t: Txid ensures Shown(db, levels, t) == old(Shown(db, levels, t)) {
        ShownOn(db, old(levels), l, t);
      }
      forall i | 0 <= i < |levels| ensures LevelOk(db, levels[..i], levels[i]) {
        assert levels[..i] == old(levels)[..i];
        if i < |old(levels)| { assert LevelOk(db, old(levels)[..i], old(levels)[i]); }
      }
    }

    /** Destroying the top cache without flushing it forgets its changes. */
    method DropCache()
      requires Valid() && |levels| > 0 && !levels[|levels| - 1].HasModifier()
      modifies this
      ensures Valid() && db == old(db) && dbBest == old(dbBest) && levels == old(levels)[..|old(levels)| - 1]
    {
      levels := levels[..|levels| - 1];
      forall i | 0 <= i < |levels| ensures LevelOk(db, levels[..i], levels[i]) {
        assert levels[..i] == old(levels)[..i];
        assert LevelOk(db, old(levels)[..i], old(levels)[i]);
      }
    }

    /** Reads at view j: 0 is the database, j the cache at levels[j - 1]. Reading fills caches on
        the way, but no view changes. */
    method GetCoins(j: nat, t: Txid) returns (found: bool, coins: Coins)
      requires Valid() && j <= |levels|
      modifies this`levels
      ensures Valid() && SameViews(old(db), old(levels), db, levels)
      ensures forall i :: j <= i < |levels| ==> levels[i] == old(levels)[i]
      ensures forall i :: 0 <= i < |levels| ==>
        levels[i].modifier == old(levels)[i].modifier && levels[i].best == old(levels)[i].best
      ensures found ==> Norm(coins) == Shown(db, levels[..j], t)
      ensures found && (j > 0 ==> t !in levels[j - 1].modifier) ==> coins.IsClean()
      ensures !found ==> Shown(db, levels[..j], t) == NO_COINS
      decreases j, 1
    {
      if j == 0 {
        found := t in db;
        coins := if found then db[t] else NO_COINS;
      } else {
        found := FetchCoins(j - 1, t);
        coins := if found then levels[j - 1].cache[t].coins else NO_COINS;
        ShownAt(db, levels, j - 1, t);
      }
    }

    /** Makes sure the cache at level i has an entry if there is anything below. */
    method FetchCoins(i: nat, t: Txid) returns (found: bool)
      requires Valid() && i < |levels|
      modifies this`levels
      ensures Valid() && SameViews(old(db), old(levels), db, levels)
      ensures forall k :: i < k < |levels| ==> levels[k] == old(levels)[k]
      ensures forall k :: 0 <= k < |levels| ==>
        levels[k].modifier == old(levels)[k].modifier && levels[k].best == old(levels)[k].best
      ensures found <==> t in levels[i].cache
      ensures !found ==> Shown(db, levels[..i + 1], t) == NO_COINS
      decreases i, 2
    {
      if t in levels[i].cache {
        return true;
      }
      var below, tmp := GetCoins(i, t);
      ShownAt(db, levels, i, t);
      if !below {
        return false;
      }
      var isFresh := tmp.IsPruned();
      var l := levels[i].(cache := levels[i].cache[t := Entry(tmp, false, isFresh)]);
      FetchedLevel(levels, i, t, l);
      levels := levels[i := l];
      return true;
    }

    lemma FetchedLevel(levels: seq<Level>, i: nat, t: Txid, l: Level)
      requires StackOk(db, levels) && i < |levels| && t !in levels[i].cache
      requires l == levels[i].(cache := l.cache) && t in l.cache && l.cache == levels[i].cache[t := l.cache[t]]
      requires var e := l.cache[t]; e.coins.IsClean() && !e.isDirty && Norm(e.coins) == Shown(db, levels[..i], t)
      requires l.cache[t].isFresh ==> l.cache[t].coins.IsPruned()
      ensures StackOk(db, levels[i := l]) && SameViews(db, levels, db, levels[i := l])
    {
      assert LevelOk(db, levels[..i], levels[i]);
      NormFacts(l.cache[t].coins);
      assert t !in levels[i].modifier;
      assert LevelOk(db, levels[..i], l);
      assert levels[i := l][..i] == levels[..i];
      var a, b := levels[..i + 1], levels[i := l][..i + 1];
      forall x: Txid ensures Shown(db, b, x) == Shown(db, a, x) {
        ShownAt(db, levels, i, x);
        ShownAt(db, levels[i := l], i, x);
      }
      ReplaceLevel(db, levels, i, l);
    }

    ghost function Top(): nat
      requires |levels| > 0
      reads this
    {
      |levels| - 1
    }

    /** Nothing below the top has changed, and what the top shows has changed for one transaction at most. */
    twostate predicate TopChanged(t: Txid, c: Coins)
      requires |levels| > 0 && |old(levels)| == |levels|
      reads this
    {
      && db == old(db) && dbBest == old(dbBest)
      && (forall i, x: Txid :: 0 <= i < |levels| ==> Shown(db, levels[..i], x) == Shown(old(db), old(levels)[..i], x))
      && (forall x: Txid :: Shown(db, levels, x) == if x == t then c else Shown(old(db), old(levels), x))
    }

    /** Obtains a modifiable entry; by itself this changes no view. */
    method ModifyCoins(t: Txid)
      requires Valid() && |levels| > 0 && !levels[Top()].HasModifier()
      modifies this`levels
      ensures Valid() && SameViews(old(db), old(levels), db, levels)
      ensures levels[Top()].modifier == {t} && SameBests(old(levels), levels)
    {
      hide Trimmed, StackOk, SameViews;
      var n := |levels| - 1;
      var e: Entry;
      SameViewsTrans(db, levels, levels, levels);
      TopView(levels);
      TopLevel(levels);
      if t !in levels[n].cache {
        var found, c := GetCoins(n, t);
        TopView(levels);
        e := if !found then Entry(NO_COINS, false, true) else Entry(c, false, c.IsPruned());
        NormFacts(e.coins);
      } else {
        e := levels[n].cache[t];
      }
      OpenTop(levels, t, e);
      ghost var mid := levels;
      levels := levels[n := Level(levels[n].cache[t := e.(isDirty := true)], levels[n].best, {t})];
      SameViewsTrans(db, old(levels), mid, levels);
    }

    lemma TopLevel(levels: seq<Level>)
      requires StackOk(db, levels) && |levels| > 0
      ensures LevelOk(db, levels[..|levels| - 1], levels[|levels| - 1])
    {
    }

    lemma OpenTop(levels: seq<Level>, t: Txid, e: Entry)
      requires StackOk(db, levels) && |levels| > 0 && levels[|levels| - 1].modifier == {}
      requires Norm(e.coins) == Shown(db, levels, t)
      requires e.isFresh ==> Shown(db, levels[..|levels| - 1], t) == NO_COINS
      ensures var n := |levels| - 1;
              var l := Level(levels[n].cache[t := e.(isDirty := true)], levels[n].best, {t});
              StackOk(db, levels[n := l]) && SameViews(db, levels, db, levels[n := l])
    {
      hide Norm, StackOk, SameViews, LevelOk;
      var n := |levels| - 1;
      var l := Level(levels[n].cache[t := e.(isDirty := true)], levels[n].best, {t});
      TopLevel(levels);
      OpenedOk(levels[..n], levels[n], t, e);
      TopView(levels);
      SameTop(levels, l);
    }

    lemma OpenedOk(below: seq<Level>, l: Level, t: Txid, e: Entry)
      requires LevelOk(db, below, l) && (e.isFresh ==> Shown(db, below, t) == NO_COINS)
      requires l.modifier <= {t}
      ensures LevelOk(db, below, Level(l.cache[t := e.(isDirty := true)], l.best, {t}))
    {
      hide Norm, Shown;
    }

    lemma SameTop(levels: seq<Level>, l: Level)
      requires StackOk(db, levels) && |levels| > 0
      requires LevelOk(db, levels[..|levels| - 1], l)
      requires forall x: Txid ::
        (if x in l.cache then Norm(l.cache[x].coins) else Shown(db, levels[..|levels| - 1], x)) == Shown(db, levels, x)
      ensures StackOk(db, levels[|levels| - 1 := l]) && SameViews(db, levels, db, levels[|levels| - 1 := l])
    {
      var n := |levels| - 1;
      assert levels[n := l][..n] == levels[..n];
      var a, b := levels[..n + 1], levels[n := l][..n + 1];
      assert a == levels && b == levels[n := l];
      forall x: Txid ensures Shown(db, b, x) == Shown(db, a, x) {
        ShownAt(db, levels[n := l], n, x);
      }
      ReplaceLevel(db, levels, n, l);
    }

    lemma NewTop(levels: seq<Level>, l: Level, t: Txid, c: Coins)
      requires StackOk(db, levels) && |levels| > 0
      requires LevelOk(db, levels[..|levels| - 1], l)
      requires forall x: Txid ::
        (if x in l.cache then Norm(l.cache[x].coins) else Shown(db, levels[..|levels| - 1], x)) ==
          if x == t then c else Shown(db, levels, x)
      ensures StackOk(db, levels[|levels| - 1 := l])
      ensures forall i, x: Txid :: 0 <= i < |levels| ==>
        Shown(db, levels[|levels| - 1 := l][..i], x) == Shown(db, levels[..i], x)
      ensures forall x: Txid :: Shown(db, levels[|levels| - 1 := l], x) == if x == t then c else Shown(db, levels, x)
    {
      var n := |levels| - 1;
      var levels' := levels[n := l];
      forall i | 0 <= i <= n ensures levels'[..i] == levels[..i] { }
      forall i | 0 <= i < |levels'| ensures LevelOk(db, levels'[..i], levels'[i]) {
        if i < n { assert LevelOk(db, levels[..i], levels[i]); }
      }
      forall x: Txid ensures Shown(db, levels', x) == if x == t then c else Shown(db, levels, x) {
        ShownAt(db, levels', n, x);
        assert levels'[..n + 1] == levels';
      }
    }

    /** Assigns through the modifier. */
    method Assign(t: Txid, c: Coins)
      requires Valid() && |levels| > 0 && levels[Top()].modifier == {t}
      modifies this`levels
      ensures |levels| == old(|levels|) && Valid() && TopChanged(t, Norm(c))
      ensures levels[Top()].modifier == {t} && SameBests(old(levels), levels)
    {
      var n := |levels| - 1;
      assert LevelOk(db, levels[..n], levels[n]);
      var l := levels[n].(cache := levels[n].cache[t := levels[n].cache[t].(coins := c)]);
      TopView(levels);
      NewTop(levels, l, t, Norm(c));
      levels := levels[n := l];
    }

    lemma TopView(levels: seq<Level>)
      requires |levels| > 0
      ensures forall x: Txid :: Shown(db, levels, x) ==
                if x in levels[|levels| - 1].cache then Norm(levels[|levels| - 1].cache[x].coins) else Shown(db,
                    levels[..|levels| - 1], x)
    {
    }

    /** The modifier's destructor: trims the coins, and drops an entry that is fresh and pruned. */
    method EndModify(t: Txid)
      requires Valid() && |levels| > 0 && levels[Top()].modifier == {t}
      modifies this`levels
      ensures Valid() && SameViews(old(db), old(levels), db, levels)
      ensures !levels[Top()].HasModifier() && SameBests(old(levels), levels)
      ensures t in old(levels[Top()].cache)
      ensures var before, e := old(levels[Top()].cache), old(levels[Top()].cache)[t];
        levels[Top()].cache == if e.isFresh && e.coins.IsPruned() then before - {t}
                               else before[t := e.(coins := e.coins.(vout := Trimmed(e.coins.vout)))]
    {
      hide Trimmed, SameViews, StackOk, Norm;
      var n := |levels| - 1;
      TopLevel(levels);
      var e := levels[n].cache[t];
      var c := Cleanup(e.coins);
      NormFacts(c);
      TopView(levels);
      var cache := if e.isFresh && c.IsPruned() then levels[n].cache - {t} else levels[n].cache[t := e.(coins := c)];
      var l := Level(cache, levels[n].best, {});
      SameTop(levels, l);
      levels := levels[n := l];
      SameViewsTrans(db, old(levels), levels, levels);
    }

    /** Removes an unmodified entry; no view changes. */
    method Uncache(i: nat, t: Txid)
      requires Valid() && i < |levels|
      modifies this`levels
      ensures Valid() && SameViews(old(db), old(levels), db, levels)
      ensures forall k :: 0 <= k < |levels| ==> levels[k].modifier == old(levels)[k].modifier
      ensures SameBests(old(levels), levels)
      ensures var old0 := old(levels)[i].cache;
              levels[i].cache == if t in old0 && !old0[t].isDirty && !old0[t].isFresh then old0 - {t} else old0
    {
      if t in levels[i].cache && !levels[i].cache[t].isDirty && !levels[i].cache[t].isFresh {
        assert LevelOk(db, levels[..i], levels[i]);
        var l := levels[i].(cache := levels[i].cache - {t});
        assert levels[i := l][..i] == levels[..i];
        var a, b := levels[..i + 1], levels[i := l][..i + 1];
        forall x: Txid ensures Shown(db, b, x) == Shown(db, a, x) {
          ShownAt(db, levels, i, x);
          ShownAt(db, levels[i := l], i, x);
        }
        ReplaceLevel(db, levels, i, l);
        levels := levels[i := l];
      }
    }

    /** Asks whether outputs are left; the shortcut of looking for an empty list is exact. */
    method HaveCoins(i: nat, t: Txid) returns (have: bool)
      requires Valid() && i < |levels| && t !in levels[i].modifier
      modifies this`levels
      ensures Valid() && SameViews(old(db), old(levels), db, levels)
      ensures have <==> Shown(db, levels[..i + 1], t) != NO_COINS
    {
      var found := FetchCoins(i, t);
      assert LevelOk(db, levels[..i], levels[i]);
      have := found && levels[i].cache[t].coins.vout != [];
      ShownAt(db, levels, i, t);
      if found { NormFacts(levels[i].cache[t].coins); }
    }

    /** Obtains a cleared entry for a transaction assumed new. The entry is marked FRESH on trust: the
        flags stay truthful exactly when the caller's assumption holds. */
    method ModifyNewCoins(t: Txid, coinbase: bool) returns (r: Outcome)
      requires Valid() && |levels| > 0 && !levels[Top()].HasModifier()
      modifies this`levels
      ensures |levels| == old(|levels|)
      ensures r.Threw? <==> !coinbase && t in old(levels[Top()].cache) && !old(levels[Top()].cache)[t].coins.IsPruned()
      ensures r.Threw? ==> levels == old(levels)
      ensures r.Done? ==>
        (Valid() <==> coinbase || t in old(levels[Top()].cache) || old(Shown(db, levels, t)) == NO_COINS)
      ensures r.Done? && Valid() ==> TopChanged(t, NO_COINS)
      ensures r.Done? ==> levels[Top()].modifier == {t} && SameBests(old(levels), levels)
    {
      hide Trimmed, SameViews, StackOk, LevelOk, Norm;
      var n := |levels| - 1;
      var e := if t in levels[n].cache then levels[n].cache[t] else Entry(NO_COINS, false, false);
      if !coinbase {
        if !e.coins.IsPruned() {
          return Threw;
        }
        if !e.isDirty {
          e := e.(isFresh := true);
        }
      }
      TopView(levels);
      TopLevel(levels);
      if t in levels[n].cache { FlagFacts(levels[..n], levels[n], t); }
      NormFacts(e.coins);
      NormFacts(NO_COINS);
      var l := Level(levels[n].cache[t := Entry(NO_COINS, true, e.isFresh)], levels[n].best, {t});
      if e.isFresh ==> Shown(db, levels[..n], t) == NO_COINS {
        OpenedOk(levels[..n], levels[n], t, Entry(NO_COINS, true, e.isFresh));
        NewTop(levels, l, t, NO_COINS);
      } else {
        FreshLie(levels, l, t);
      }
      levels := levels[n := l];
      return Done;
    }

    lemma FlagFacts(below: seq<Level>, l: Level, t: Txid)
      requires LevelOk(db, below, l) && t in l.cache
      ensures l.cache[t].isFresh ==> Shown(db, below, t) == NO_COINS
      ensures !l.cache[t].isDirty && t !in l.modifier ==> Norm(l.cache[t].coins) == Shown(db, below, t)
    {
    }

    /** An entry that wrongly claims to be fresh spoils the stack. */
    lemma FreshLie(levels: seq<Level>, l: Level, t: Txid)
      requires |levels| > 0 && t in l.cache && l.cache[t].isFresh && Shown(db, levels[..|levels| - 1], t) != NO_COINS
      ensures !StackOk(db, levels[|levels| - 1 := l])
    {
      var n := |levels| - 1;
      assert !LevelOk(db, levels[..n], l);
      assert levels[n := l][..n] == levels[..n];
      assert levels[n := l][n] == l;
    }

    /** Writes the cache at level i into whatever is below it. Under the invariant this never hits the
        FRESH check; afterwards the level below shows what this level showed, and nothing else changes. */
    method Flush(i: nat) returns (r: Outcome)
      requires Valid() && i < |levels| && !levels[i].HasModifier()
      modifies this
      ensures r.Done? && Valid() && |levels| == old(|levels|)
      ensures forall t: Txid :: Shown(db, levels[..i], t) == Shown(old(db), old(levels)[..i + 1], t)
      ensures forall k, t: Txid :: 0 <= k <= |levels| && k != i ==>
          Shown(db, levels[..k], t) == Shown(old(db), old(levels)[..k], t)
      ensures levels[i].cache == map[] && levels[i].best == old(levels[i].best)
      ensures forall k :: 0 <= k < |levels| ==> levels[k].modifier == old(levels)[k].modifier
      ensures i == 0 ==> dbBest == (if levels[0].best != NULL_HASH then levels[0].best else old(dbBest))
      ensures i > 0 ==> levels[i - 1].best == levels[i].best && dbBest == old(dbBest)
      ensures forall k :: 0 <= k < |levels| && k != i - 1 ==> levels[k].best == old(levels)[k].best
    {
      var child := levels[i];
      assert LevelOk(db, levels[..i], child);
      if i == 0 {
        assert levels[..0] == [];
        WriteBatchShows(db, child);
        assert levels[..1] == [child];
        ghost var after := levels[0 := child.(cache := map[])];
        FlushedStack(db, levels, WriteBatch(db, child.cache), after, 0);
        db := WriteBatch(db, child.cache);
        if child.best != NULL_HASH {
          dbBest := child.best;
        }
        levels := levels[0 := child.(cache := map[])];
        r := Done;
      } else {
        var result;
        r, result := BatchWrite(levels[i - 1].cache, child.cache);
        ghost var below, parent := levels[..i - 1], levels[i - 1];
        assert below + [parent] == levels[..i];
        assert below + [parent] + [child] == levels[..i + 1];
        assert LevelOk(db, below, parent);
        if r.Threw? {
          NoThrow(below, parent, child);
        }
        MergeShows(db, below, parent, child, result);
        FlushedInto(levels, i, result);
        levels := levels[i - 1 := Level(result, child.best, levels[i - 1].modifier)];
        levels := levels[i := child.(cache := map[])];
      }
    }

    lemma NoThrow(below: seq<Level>, parent: Level, child: Level)
      requires LevelOk(db, below, parent) && LevelOk(db, below + [parent], child)
      requires parent.modifier == {} && child.modifier == {}
      ensures forall t: Txid :: !Misapplied(parent.cache, child.cache, t)
    {
      forall t: Txid ensures !Misapplied(parent.cache, child.cache, t) {
        if t in parent.cache && t in child.cache {
          ShownOn(db, below, parent, t);
          NormFacts(parent.cache[t].coins);
        }
      }
    }

    lemma FlushedInto(levels: seq<Level>, i: nat, result: Cache)
      requires StackOk(db, levels) && 0 < i < |levels| && levels[i].modifier == {}
      requires LevelOk(db, levels[..i - 1], levels[i - 1].(cache := result))
      requires SameShown(db, levels[..i + 1], db, levels[..i - 1] + [levels[i - 1].(cache := result)])
      ensures var levels' := levels[i - 1 := Level(result, levels[i].best, levels[i - 1].modifier)][i :=
          levels[i].(cache := map[])];
              && StackOk(db, levels')
              && SameShown(db, levels[..i + 1], db, levels'[..i])
              && forall k, t: Txid :: 0 <= k <= |levels| && k != i ==>
                    Shown(db, levels'[..k], t) == Shown(db, levels[..k], t)
    {
      var parent := levels[i - 1].(cache := result);
      var l := parent.(best := levels[i].best);
      var levels' := levels[i - 1 := l][i := levels[i].(cache := map[])];
      assert levels'[..i - 1] == levels[..i - 1];
      var a, b := levels[..i + 1], levels'[..i];
      assert b == levels[..i - 1] + [l];
      forall t: Txid ensures Shown(db, b, t) == Shown(db, a, t) {
        ShownOn(db, levels[..i - 1], parent, t);
        ShownOn(db, levels[..i - 1], l, t);
      }
      forall k | 0 <= k < i ensures LevelOk(db, levels'[..k], levels'[k]) && levels'[k].modifier == {} {
        ShownBelow(db, levels, levels', i - 1, k);
        assert LevelOk(db, levels[..k], levels[k]);
      }
      FlushedStack(db, levels, db, levels', i);
      forall k, t: Txid | 0 <= k <= |levels| && k != i ensures Shown(db, levels'[..k], t) == Shown(db, levels[..k], t) {
        if k < i { ShownBelow(db, levels, levels', i - 1, k); }
      }
    }

    method SetBestBlock(i: nat, best: BlockHash)
      requires Valid() && i < |levels|
      modifies this`levels
      ensures Valid() && SameViews(db, old(levels), db, levels) && |levels| == |old(levels)|
      ensures levels == old(levels)[i := old(levels)[i].(best := best)]
    {
      var l := levels[i].(best := best);
      assert LevelOk(db, levels[..i], levels[i]);
      assert levels[i := l][..i] == levels[..i];
      var a, b := levels[..i + 1], levels[i := l][..i + 1];
      forall x: Txid ensures Shown(db, b, x) == Shown(db, a, x) {
        ShownAt(db, levels, i, x);
        ShownAt(db, levels[i := l], i, x);
      }
      ReplaceLevel(db, levels, i, l);
      levels := levels[i := l];
    }

    method GetBestBlock(i: nat) returns (best: BlockHash)
      requires i < |levels|
      modifies this`levels
      ensures |levels| == old(|levels|) && best == BestShown(dbBest, old(levels)[..i + 1])
      ensures forall k :: 0 <= k < |levels| ==> levels[k] == old(levels)[k].(best := levels[k].best)
      ensures forall k :: i < k < |levels| ==> levels[k] == old(levels)[k]
      ensures forall k :: 0 <= k <= |levels| ==> BestShown(dbBest, levels[..k]) == BestShown(dbBest, old(levels)[..k])
      ensures Bests(dbBest, levels) == Asked(Bests(dbBest, old(levels)), i + 1)
      decreases i
    {
      hide Bests, Asked, BestAt;
      assert levels[..i + 1][..i] == levels[..i] && levels[..0] == [];
      AskedKnown(dbBest, levels, i);
      if levels[i].best == NULL_HASH {
        var below := dbBest;
        if i > 0 {
          below := GetBestBlock(i - 1);
          assert levels[..i] == levels[..(i - 1) + 1];
        }
        RememberBest(dbBest, levels, i, below);
        BestAtShown(dbBest, old(levels), i);
        AskedLevels(dbBest, old(levels), levels, i, below);
        levels := levels[i := levels[i].(best := below)];
      }
      best := levels[i].best;
    }
  }

  /** The best blocks stored with the database and with each cache. */
  function Bests(dbBest: BlockHash, levels: seq<Level>): (r: seq<BlockHash>)
    ensures |r| == |levels| + 1 && r[0] == dbBest && forall k :: 0 < k <= |levels| ==> r[k] == levels[k - 1].best
  {
    [dbBest] + seq(|levels|, k requires 0 <= k < |levels| => levels[k].best)
  }

  /** The best block that view i shows: its own, or the nearest one below that is known. */
  function BestAt(bests: seq<BlockHash>, i: nat): BlockHash
    requires i < |bests|
  {
    if i == 0 || bests[i] != NULL_HASH then bests[i] else BestAt(bests, i - 1)
  }

  lemma {:induction false} BestAtShown(dbBest: BlockHash, levels: seq<Level>, i: nat)
    requires i <= |levels|
    ensures BestAt(Bests(dbBest, levels), i) == BestShown(dbBest, levels[..i])
    decreases i
  {
    if i > 0 {
      BestAtShown(dbBest, levels, i - 1);
      assert levels[..i][..i - 1] == levels[..i - 1];
    }
  }

  /** What asking view i for its best block leaves stored: every view on the way down to a known one
      remembers it. */
  function Asked(bests: seq<BlockHash>, i: nat): (r: seq<BlockHash>)
    requires i < |bests|
    ensures |r| == |bests| && forall k :: i < k < |bests| ==> r[k] == bests[k]
    ensures r[i] == BestAt(bests, i)
  {
    if i == 0 || bests[i] != NULL_HASH then bests else Asked(bests, i - 1)[i := BestAt(bests, i - 1)]
  }

  lemma AskedKnown(dbBest: BlockHash, levels: seq<Level>, i: nat)
    requires i < |levels|
    ensures var b := Bests(dbBest, levels); Asked(b, 0) == b && (levels[i].best != NULL_HASH ==> Asked(b, i + 1) == b)
  {
  }

  lemma AskedLevels(dbBest: BlockHash, before: seq<Level>, mid: seq<Level>, i: nat, below: BlockHash)
    requires i < |before| == |mid| && before[i].best == NULL_HASH
    requires Bests(dbBest, mid) == Asked(Bests(dbBest, before), i) && below == BestAt(Bests(dbBest, before), i)
    ensures Bests(dbBest, mid[i := mid[i].(best := below)]) == Asked(Bests(dbBest, before), i + 1)
  {
    hide BestAt;
    var after := mid[i := mid[i].(best := below)];
    assert Bests(dbBest, after) == Bests(dbBest, mid)[i + 1 := below];
  }

  /** A flush moves the best block a view shows down to the view below, exactly when the flushed view
      knew one of its own, or the one below had none or the same as what is under it. */
  lemma FlushMovesBest(bests: seq<BlockHash>, i: nat)
    requires 0 < i < |bests| - 1
    ensures BestAt(bests[i := bests[i + 1]], i) == BestAt(bests, i + 1)
      <==> bests[i + 1] != NULL_HASH || bests[i] == NULL_HASH || bests[i] == BestAt(bests, i - 1)
  {
    SamePrefix(bests, bests[i := bests[i + 1]], i - 1);
  }

  lemma {:induction false} SamePrefix(a: seq<BlockHash>, b: seq<BlockHash>, i: nat)
    requires i < |a| && i < |b| && forall k :: 0 <= k <= i ==> a[k] == b[k]
    ensures BestAt(a, i) == BestAt(b, i)
    decreases i
  {
    if i > 0 { SamePrefix(a, b, i - 1); }
  }

  /** The write loop: handles one entry of the child after another, in any order. */
  method BatchWrite(parent: Cache, child: Cache) returns (r: Outcome, result: Cache)
    ensures r.Threw? <==> exists t: Txid :: Misapplied(parent, child, t)
    ensures r.Done? ==> IsMerge(parent, child, result)
  {
    result := parent;
    var todo := child;
    while todo != map[]
      invariant todo.Keys <= child.Keys && forall t :: t in todo ==> todo[t] == child[t]
      invariant forall t: Txid :: t in todo ==> Lookup(result, t) == Lookup(parent, t)
      invariant forall t: Txid :: t !in todo ==>
        Lookup(result, t) == Merged(parent, child, t) && !Misapplied(parent, child, t)
      decreases |todo|
    {
      var t :| t in todo;
      var it := todo[t];
      if it.isDirty {
        if t !in result {
          if !(it.isFresh && it.coins.IsPruned()) {
            result := result[t := Entry(it.coins, true, it.isFresh)];
          }
        } else {
          if it.isFresh && !result[t].coins.IsPruned() {
            assert Misapplied(parent, child, t);
            return Threw, result;
          }
          if result[t].isFresh && it.coins.IsPruned() {
            result := result - {t};
          } else {
            result := result[t := Entry(it.coins, true, result[t].isFresh)];
          }
        }
      }
      assert todo.Keys - {t} < todo.Keys;
      assert (todo - {t}).Keys == todo.Keys - {t};
      todo := todo - {t};
    }
    return Done, result;
  }

  // ----- runs, against a plain stack of maps -----

  /** What one level shows, as a plain total map. */
  type View = Txid -> Coins

  datatype Op =
    | AddLevel
    | DropLevel
    | Read(level: nat, t: Txid)
    | Forget(level: nat, t: Txid)
    | Put(t: Txid, coins: Coins)
    | PutNew(t: Txid, coinbase: bool, coins: Coins)
    | FlushLevel(level: nat)
    | SetBest(level: nat, best: BlockHash)
    | GetBest(level: nat)

  /** The same operation on plain maps: the last view is the topmost. */
  function Spec(views: seq<View>, op: Op): (r: seq<View>)
    requires |views| > 0
    ensures |r| > 0
  {
    var top := |views| - 1;
    match op
    case AddLevel => views + [views[top]]
    case DropLevel => if top == 0 then views else views[..top]
    case Read(_, _) => views
    case Forget(_, _) => views
    case Put(t, c) => if top == 0 then views else views[top := Written(views[top], t, c)]
    case PutNew(t, coinbase, c) =>
      if top == 0 || !(coinbase || views[top](t) == NO_COINS) then views else views[top := Written(views[top], t, c)]
    case FlushLevel(i) => if i >= top then views else views[i := views[i + 1]]
    case SetBest(_, _) => views
    case GetBest(_) => views
  }

  /** What the operation does to the best blocks stored. */
  function SpecBest(bests: seq<BlockHash>, op: Op): (r: seq<BlockHash>)
    requires |bests| > 0
    ensures |r| > 0
  {
    var top := |bests| - 1;
    match op
    case AddLevel => bests + [NULL_HASH]
    case DropLevel => if top == 0 then bests else bests[..top]
    case FlushLevel(i) =>
      if i >= top then bests
      else if i > 0 || bests[1] != NULL_HASH then bests[i := bests[i + 1]] else bests
    case SetBest(i, best) => if i >= top then bests else bests[i + 1 := best]
    case GetBest(i) => if i >= top then bests else Asked(bests, i + 1)
    case _ => bests
  }

  function SpecBestRun(bests: seq<BlockHash>, ops: seq<Op>): (r: seq<BlockHash>)
    requires |bests| > 0
    ensures |r| > 0
  {
    if ops == [] then bests else SpecBest(SpecBestRun(bests, ops[..|ops| - 1]), ops[|ops| - 1])
  }

  lemma BestsSame(dbBest: BlockHash, a: seq<Level>, b: seq<Level>)
    requires SameBests(a, b)
    ensures Bests(dbBest, a) == Bests(dbBest, b)
  {
  }

  function Written(v: View, t: Txid, c: Coins): View
  {
    (x: Txid) => if x == t then Norm(c) else v(x)
  }

  function SpecRun(views: seq<View>, ops: seq<Op>): (r: seq<View>)
    requires |views| > 0
    ensures |r| > 0
  {
    if ops == [] then views else Spec(SpecRun(views, ops[..|ops| - 1]), ops[|ops| - 1])
  }

  ghost predicate Refines(views: seq<View>, db: Database, levels: seq<Level>)
  {
    && |views| == |levels| + 1
    && (forall i, t: Txid :: 0 <= i <= |levels| ==> views[i](t) == Shown(db, levels[..i], t))
    && (forall i :: 0 <= i < |levels| ==> levels[i].modifier == {})
  }

  /** Assigning through an open modifier and closing it. */
  method WriteTop(s: ViewStack, t: Txid, c: Coins, ghost views: seq<View>)
    requires s.Valid() && |s.levels| > 0 && s.levels[|s.levels| - 1].modifier == {t} && |views| == |s.levels| + 1
    requires forall i, x: Txid :: 0 <= i < |s.levels| ==> views[i](x) == Shown(s.db, s.levels[..i], x)
    requires forall x: Txid :: x != t ==> views[|s.levels|](x) == Shown(s.db, s.levels, x)
    modifies s
    ensures s.Valid() && Refines(views[|views| - 1 := Written(views[|views| - 1], t, c)], s.db, s.levels)
    ensures s.dbBest == old(s.dbBest) && SameBests(old(s.levels), s.levels)
  {
    hide Shown, Norm, Trimmed, LevelOk;
    var n := |s.levels|;
    s.Assign(t, c);
    ghost var mid := s.levels;
    s.EndModify(t);
    assert mid[..n] == mid && s.levels[..n] == s.levels;
  }

  /** One operation on the caches does on what they show just what it does on plain maps. */
  method Step(s: ViewStack, op: Op, ghost views: seq<View>)
    requires s.Valid() && Refines(views, s.db, s.levels)
    modifies s
    ensures s.Valid() && Refines(Spec(views, op), s.db, s.levels)
    ensures Bests(s.dbBest, s.levels) == SpecBest(old(Bests(s.dbBest, s.levels)), op)
  {
    hide StackOk, Shown, Norm, Bests, Asked;
    match op
    case AddLevel =>
      StepAdd(s, views);
    case DropLevel =>
      if |s.levels| > 0 {
        s.DropCache();
        forall i | 0 <= i <= |s.levels| ensures s.levels[..i] == old(s.levels)[..i] { }
        assert Bests(s.dbBest, s.levels) == Bests(s.dbBest, old(s.levels))[..|s.levels| + 1];
      }
    case Read(level, t) =>
      if level <= |s.levels| {
        var _, _ := s.GetCoins(level, t);
        BestsSame(s.dbBest, old(s.levels), s.levels);
      }
    case Forget(level, t) =>
      if level < |s.levels| {
        s.Uncache(level, t);
        BestsSame(s.dbBest, old(s.levels), s.levels);
      }
    case Put(t, c) =>
      if |s.levels| > 0 {
        StepPut(s, t, c, views);
      }
    case PutNew(t, coinbase, c) =>
      assert s.levels[..|s.levels|] == s.levels;
      if |s.levels| > 0 && (coinbase || Shown(s.db, s.levels, t) == NO_COINS) {
        StepPutNew(s, t, coinbase, c, views);
      }
    case FlushLevel(i) =>
      if i < |s.levels| {
        StepFlush(s, i, views);
      }
    case SetBest(i, best) =>
      if i < |s.levels| {
        s.SetBestBlock(i, best);
        assert Bests(s.dbBest, s.levels) == Bests(s.dbBest, old(s.levels))[i + 1 := best];
      }
    case GetBest(i) =>
      if i < |s.levels| {
        StepGetBest(s, i, views);
      }
  }

  method StepGetBest(s: ViewStack, i: nat, ghost views: seq<View>)
    requires s.Valid() && Refines(views, s.db, s.levels) && i < |s.levels|
    modifies s
    ensures s.Valid() && Refines(views, s.db, s.levels)
    ensures Bests(s.dbBest, s.levels) == Asked(old(Bests(s.dbBest, s.levels)), i + 1)
  {
    hide StackOk, Shown, Norm, Bests, Asked;
    var _ := s.GetBestBlock(i);
    OnlyBests(s.db, old(s.levels), s.levels);
  }

  /** The best blocks have no part in what coins are shown. */
  lemma OnlyBests(db: Database, a: seq<Level>, b: seq<Level>)
    requires StackOk(db, a) && |b| == |a| && forall k :: 0 <= k < |a| ==> b[k] == a[k].(best := b[k].best)
    ensures StackOk(db, b) && SameViews(db, a, db, b)
  {
    forall k, t: Txid | 0 <= k <= |a| ensures Shown(db, b[..k], t) ==
        Shown(db, a[..k], t) { OnlyBestsAt(db, a, b, k, t); }
    forall k | 0 <= k < |b| ensures LevelOk(db, b[..k], b[k]) {
      assert LevelOk(db, a[..k], a[k]);
    }
  }

  lemma {:induction false} OnlyBestsAt(db: Database, a: seq<Level>, b: seq<Level>, k: nat, t: Txid)
    requires |b| == |a| && k <= |a| && forall k :: 0 <= k < |a| ==> b[k] == a[k].(best := b[k].best)
    ensures Shown(db, b[..k], t) == Shown(db, a[..k], t)
    decreases k
  {
    if k > 0 {
      OnlyBestsAt(db, a, b, k - 1, t);
      assert a[..k][..k - 1] == a[..k - 1] && b[..k][..k - 1] == b[..k - 1];
    }
  }

  method StepAdd(s: ViewStack, ghost views: seq<View>)
    requires s.Valid() && Refines(views, s.db, s.levels)
    modifies s
    ensures s.Valid() && Refines(Spec(views, AddLevel), s.db, s.levels)
    ensures Bests(s.dbBest, s.levels) == SpecBest(old(Bests(s.dbBest, s.levels)), AddLevel)
  {
    hide StackOk, Shown, Norm;
    assert s.levels[..|s.levels|] == s.levels;
    s.AddCache();
    forall i, t: Txid | 0 <= i <= |s.levels| ensures Spec(views, AddLevel)[i](t) == Shown(s.db, s.levels[..i], t) {
      if i < |s.levels| { assert s.levels[..i] == old(s.levels)[..i]; } else { assert s.levels[..i] == s.levels; }
    }
    assert Bests(s.dbBest, s.levels) == Bests(s.dbBest, old(s.levels)) + [NULL_HASH];
  }

  method StepPut(s: ViewStack, t: Txid, c: Coins, ghost views: seq<View>)
    requires s.Valid() && Refines(views, s.db, s.levels) && |s.levels| > 0
    modifies s
    ensures s.Valid() && Refines(Spec(views, Put(t, c)), s.db, s.levels)
    ensures Bests(s.dbBest, s.levels) == SpecBest(old(Bests(s.dbBest, s.levels)), Put(t, c))
  {
    hide StackOk, Shown, Norm;
    s.ModifyCoins(t);
    assert s.levels[..|s.levels|] == s.levels;
    WriteTop(s, t, c, views);
    BestsSame(s.dbBest, old(s.levels), s.levels);
  }

  method StepPutNew(s: ViewStack, t: Txid, coinbase: bool, c: Coins, ghost views: seq<View>)
    requires s.Valid() && Refines(views, s.db, s.levels) && |s.levels| > 0
    requires coinbase || Shown(s.db, s.levels, t) == NO_COINS
    modifies s
    ensures s.Valid() && Refines(Spec(views, PutNew(t, coinbase, c)), s.db, s.levels)
    ensures Bests(s.dbBest, s.levels) == SpecBest(old(Bests(s.dbBest, s.levels)), PutNew(t, coinbase, c))
  {
    hide StackOk, Norm;
    assert s.levels[..|s.levels|] == s.levels;
    if t in s.levels[|s.levels| - 1].cache { NormFacts(s.levels[|s.levels| - 1].cache[t].coins); }
    var r := s.ModifyNewCoins(t, coinbase);
    WriteTop(s, t, c, views);
    BestsSame(s.dbBest, old(s.levels), s.levels);
  }

  lemma BestsFlushed(dbBest: BlockHash, a: seq<Level>, dbBest': BlockHash, b: seq<Level>, i: nat)
    requires i < |a| == |b| && forall k :: 0 <= k < |a| && k != i - 1 ==> b[k].best == a[k].best
    requires i == 0 ==> dbBest' == if a[0].best != NULL_HASH then a[0].best else dbBest
    requires i > 0 ==> b[i - 1].best == a[i].best && dbBest' == dbBest
    ensures Bests(dbBest', b) == SpecBest(Bests(dbBest, a), FlushLevel(i))
  {
    hide Bests;
  }

  method StepFlush(s: ViewStack, i: nat, ghost views: seq<View>)
    requires s.Valid() && Refines(views, s.db, s.levels) && i < |s.levels|
    modifies s
    ensures s.Valid() && Refines(Spec(views, FlushLevel(i)), s.db, s.levels)
    ensures Bests(s.dbBest, s.levels) == SpecBest(old(Bests(s.dbBest, s.levels)), FlushLevel(i))
  {
    hide StackOk, Shown, Norm;
    var _ := s.Flush(i);
    ghost var child, shown := views[i + 1], old(s.levels)[..i + 1];
    assert forall t: Txid :: child(t) == Shown(old(s.db), shown, t);
    BestsFlushed(old(s.dbBest), old(s.levels), s.dbBest, s.levels, i);
  }

  /** Any run of the caches shows, at every level, what the run shows on plain maps. */
  method Run(s: ViewStack, ops: seq<Op>, ghost views: seq<View>)
    requires s.Valid() && Refines(views, s.db, s.levels)
    modifies s
    ensures s.Valid() && Refines(SpecRun(views, ops), s.db, s.levels)
    ensures Bests(s.dbBest, s.levels) == SpecBestRun(old(Bests(s.dbBest, s.levels)), ops)
  {
    hide Spec, SpecBest, Bests;
    var k := 0;
    assert ops[..0] == [];
    while k < |ops|
      invariant 0 <= k <= |ops| && s.Valid() && Refines(SpecRun(views, ops[..k]), s.db, s.levels)
      invariant Bests(s.dbBest, s.levels) == SpecBestRun(old(Bests(s.dbBest, s.levels)), ops[..k])
    {
      assert ops[..k + 1][..k] == ops[..k];
      Step(s, ops[k], SpecRun(views, ops[..k]));
      k := k + 1;
    }
    assert ops[..k] == ops;
  }

  /** The promise broken: the database has the coins, and the new entry claims it has not. */
  method FreshOnTrust(t: Txid, c: Coins) returns (s: ViewStack)
    requires c.IsClean() && !c.IsPruned()
    ensures |s.levels| == 1 && Shown(s.db, [], t) == c != NO_COINS && !s.Valid()
  {
    s := new ViewStack(map[t := c], NULL_HASH);
    s.AddCache();
    NormFacts(c);
    ShownDirectly(s.db, s.levels, t);
    var r := s.ModifyNewCoins(t, false);
  }

  lemma ShownDirectly(db: Database, levels: seq<Level>, t: Txid)
    requires t in db && db[t].IsClean() && !db[t].IsPruned() && |levels| == 1 && t !in levels[0].cache
    ensures Shown(db, [], t) == db[t] && Shown(db, levels, t) == db[t] != NO_COINS
  {
    NormFacts(db[t]);
    assert levels[..0] == [];
  }
}
