/** The address manager as the source has it: an object whose methods update its fields in
    place. Each method is proved to carry out the corresponding function on the whole state. */
module AddrManager {
  import opened AddrBook
  import S = AddrSteps
  import R = AddrRuns

  class AddrMan {
    const hash: Hashing
    var nIdCount: int
    var mapInfo: Infos
    var mapAddr: map<NetAddr, int>
    var vRandom: seq<int>
    var nTried: int
    var vvTried: Table
    var nNew: int
    var vvNew: Table
    var nLastGood: int

    ghost function State(): S.Book
      reads this
    {
      S.Book(hash, nIdCount, mapInfo, mapAddr, vRandom, nTried, vvTried, nNew, vvNew, nLastGood)
    }

    constructor (hash: Hashing)
      ensures State() == S.NewBook(hash) && S.Valid(State())
    {
      this.hash := hash;
      nIdCount, mapInfo, mapAddr, vRandom := 0, map[], map[], [];
      nTried, vvTried := 0, EmptyTable(TRIED_BUCKET_COUNT);
      nNew, vvNew := 0, EmptyTable(NEW_BUCKET_COUNT);
      nLastGood := 1;
      new;
      S.NewBookValid(hash);
    }

    method Find(a: NetAddr) returns (found: bool, nId: int)
      requires AddrIndex(mapInfo, mapAddr)
      ensures found <==> exists n :: n in mapInfo && mapInfo[n].Net() == a
      ensures found ==> a in mapAddr && nId == mapAddr[a] && nId in mapInfo && mapInfo[nId].Net() == a
      ensures found <==> a in mapAddr
    {
      found, nId := false, 0;
      if a in mapAddr {
        nId := mapAddr[a];
        found := nId in mapInfo;
      }
    }

    method SwapRandom(p1: nat, p2: nat)
      requires p1 == p2 || (p1 < |vRandom| && p2 < |vRandom| && vRandom[p1] in mapInfo && vRandom[p2] in mapInfo)
      modifies this
      ensures State() == S.Swap(old(State()), p1, p2)
    {
      if p1 == p2 {
        return;
      }
      var nId1 := vRandom[p1];
      var nId2 := vRandom[p2];
      mapInfo := mapInfo[nId1 := mapInfo[nId1].(randomPos := p2)];
      mapInfo := mapInfo[nId2 := mapInfo[nId2].(randomPos := p1)];
      vRandom := vRandom[p1 := nId2];
      vRandom := vRandom[p2 := nId1];
    }

    method Delete(nId: int)
      requires RandomIndex(mapInfo, vRandom) && nId in mapInfo
      requires !mapInfo[nId].inTried && mapInfo[nId].refCount == 0
      modifies this
      ensures State() == S.Forget(old(State()), nId)
    {
      hide RandomIndex, S.Swap;
      S.OwnPlace(mapInfo, vRandom, nId);
      S.SwapShape(State(), mapInfo[nId].randomPos, |vRandom| - 1);
      S.SwapKeepsIndex(State(), mapInfo[nId].randomPos, |vRandom| - 1);
      SwapRandom(mapInfo[nId].randomPos, |vRandom| - 1);
      vRandom := vRandom[..|vRandom| - 1];
      mapAddr := mapAddr - {mapInfo[nId].Net()};
      mapInfo := mapInfo - {nId};
      nNew := nNew - 1;
    }

    method ClearNew(nUBucket: nat, nUBucketPos: nat)
      requires RandomIndex(mapInfo, vRandom) && NewSlots(hash, mapInfo, vvNew)
      requires RefCounts(hash, mapInfo, vvNew) && EMPTY !in mapInfo
      requires nUBucket < NEW_BUCKET_COUNT && nUBucketPos < BUCKET_SIZE
      modifies this
      ensures State() == S.ClearNew(old(State()), nUBucket, nUBucketPos)
    {
      if vvNew[nUBucket][nUBucketPos] != EMPTY {
        var nIdDelete := vvNew[nUBucket][nUBucketPos];
        ClearCellRefs(hash, mapInfo, vvNew, nUBucket, nUBucketPos);
        assert mapInfo[nIdDelete].refCount > 0;
        mapInfo := mapInfo[nIdDelete := mapInfo[nIdDelete].(refCount := mapInfo[nIdDelete].refCount - 1)];
        vvNew := SetCell(vvNew, nUBucket, nUBucketPos, EMPTY);
        if mapInfo[nIdDelete].refCount == 0 {
          S.SamePlacesKeepsRandom(old(mapInfo), mapInfo, vRandom);
          Delete(nIdDelete);
        }
      }
    }

    method MakeTried(nId: int)
      requires S.Structure(State(), {}) && nId in mapInfo && !mapInfo[nId].inTried
      modifies this
      ensures State() == S.MakeTried(old(State()), nId)
    {
      hide NewSlots, RefCounts, AddrIndex, RandomIndex, IdsBelow, NewIds, TriedIds, S.Evict;
      hide S.Structure, TriedSlots, Placed, S.ReleaseAll, S.LostOnly;
      ghost var start := State();
      var service := mapInfo[nId].Service();
      S.NowLoose(start, nId);
      ghost var freed := S.Freed(start, nId);
      ReleaseRefs(nId);
      nNew := nNew - 1;
      assert State() == freed;
      assert mapInfo[nId].refCount == 0;

      var nKBucket := hash.TriedBucket(service);
      var nKBucketPos := hash.TriedPos(service);
      if vvTried[nKBucket][nKBucketPos] != EMPTY {
        EvictToNew(nKBucket, nKBucketPos, nId);
        S.StructureParts(State(), {nId});
      }
      assert vvTried[nKBucket][nKBucketPos] == EMPTY;
      vvTried := SetCell(vvTried, nKBucket, nKBucketPos, nId);
      nTried := nTried + 1;
      mapInfo := mapInfo[nId := mapInfo[nId].(inTried := true)];
    }

    /** The loop that removes the record from all new buckets. */
    method ReleaseRefs(nId: int)
      requires S.Structure(State(), {nId}) && nId in mapInfo
      modifies this
      ensures State() == S.ReleaseAll(old(State()), nId, NEW_BUCKET_COUNT)
    {
      hide RefCounts, TriedSlots, AddrIndex, RandomIndex, IdsBelow, NewIds, TriedIds, Placed;
      ghost var start := State();
      var service := mapInfo[nId].Service();
      var bucket := 0;
      while bucket < NEW_BUCKET_COUNT
        invariant 0 <= bucket <= NEW_BUCKET_COUNT
        invariant State() == S.ReleaseAll(start, nId, bucket)
      {
        var pos := hash.NewPos(service, bucket);
        if vvNew[bucket][pos] == nId {
          vvNew := SetCell(vvNew, bucket, pos, EMPTY);
          mapInfo := mapInfo[nId := mapInfo[nId].(refCount := mapInfo[nId].refCount - 1)];
        }
        bucket := bucket + 1;
      }
    }

    method EvictToNew(nKBucket: nat, nKBucketPos: nat, ghost nId: int)
      requires S.Structure(State(), {nId}) && nId in mapInfo && mapInfo[nId].refCount == 0
      requires nKBucket < TRIED_BUCKET_COUNT && nKBucketPos < BUCKET_SIZE && vvTried[nKBucket][nKBucketPos] != EMPTY
      modifies this
      ensures State() == S.Evict(old(State()), nKBucket, nKBucketPos, nId)
      ensures S.Structure(State(), {nId}) && nId in mapInfo && vvTried[nKBucket][nKBucketPos] == EMPTY
      ensures mapInfo[nId] == old(mapInfo)[nId].(randomPos := mapInfo[nId].randomPos)
    {
      hide NewSlots, RefCounts, AddrIndex, RandomIndex, IdsBelow, NewIds, TriedIds, TriedSlots, Placed, S.ClearNew;
      hide S.Evict, S.Structure;
      ghost var start := State();
      S.EvictKeeps(start, nKBucket, nKBucketPos, nId);
      S.EvictStages(start, nKBucket, nKBucketPos, nId);

      var nIdEvict := vvTried[nKBucket][nKBucketPos];
      assert nIdEvict in mapInfo;
      mapInfo := mapInfo[nIdEvict := mapInfo[nIdEvict].(inTried := false)];
      vvTried := SetCell(vvTried, nKBucket, nKBucketPos, EMPTY);
      nTried := nTried - 1;

      var nUBucket := hash.NewBucket(mapInfo[nIdEvict].Service(), mapInfo[nIdEvict].source);
      var nUBucketPos := hash.NewPos(mapInfo[nIdEvict].Service(), nUBucket);
      ClearNew(nUBucket, nUBucketPos);
      assert vvNew[nUBucket][nUBucketPos] == EMPTY;

      mapInfo := mapInfo[nIdEvict := mapInfo[nIdEvict].(refCount := 1)];
      vvNew := SetCell(vvNew, nUBucket, nUBucketPos, nIdEvict);
      nNew := nNew + 1;
    }

    method Good(service: Service, nTime: int, nRnd: nat)
      requires S.Consistent(State())
      modifies this
      ensures State() == R.Good(old(State()), service, nTime)
      ensures S.Consistent(State())
    {
      hide NewSlots, RefCounts, RandomIndex, IdsBelow, NewIds, TriedIds, TriedSlots, Placed, S.MakeTried, S.Consistent;
      ghost var start := State();
      R.GoodKeeps(start, service, nTime);
      Parts(start);
      nLastGood := nTime;
      var found, nId := Find(service.net);
      if !found || mapInfo[nId].Service() != service {
        return;
      }
      R.UpdateKeeps(State(), nId, mapInfo[nId].(lastSuccess := nTime, lastTry := nTime, attempts := 0));
      mapInfo := mapInfo[nId := mapInfo[nId].(lastSuccess := nTime, lastTry := nTime, attempts := 0)];
      if mapInfo[nId].inTried {
        return;
      }
      var nUBucket := FindBucket(nId, nRnd);
      if nUBucket == -1 {
        return;
      }
      Parts(State());
      MakeTried(nId);
    }

    lemma Parts(s: S.Book)
      requires S.Consistent(s)
      ensures S.Structure(s, {}) && AddrIndex(s.info, s.addr)
      ensures forall t :: S.Consistent(s.(lastGood := t))
    {
    }

    /** Looks for a new bucket that holds the record, starting anywhere; there always is one. */
    method FindBucket(nId: int, nRnd: nat) returns (nUBucket: int)
      requires S.Consistent(State()) && nId in mapInfo && !mapInfo[nId].inTried
      ensures 0 <= nUBucket < NEW_BUCKET_COUNT && vvNew[nUBucket][hash.NewPos(mapInfo[nId].Service(), nUBucket)] == nId
    {
      hide RandomIndex, IdsBelow, NewIds, TriedIds, TriedSlots, AddrIndex;
      var service := mapInfo[nId].Service();
      ghost var home: nat := SomeBucket(nId);
      ghost var turn := (home + NEW_BUCKET_COUNT - nRnd % NEW_BUCKET_COUNT) % NEW_BUCKET_COUNT;
      Rotation(nRnd, home);
      nUBucket := -1;
      var n := 0;
      while n < NEW_BUCKET_COUNT && nUBucket == -1
        invariant 0 <= n <= NEW_BUCKET_COUNT
        invariant nUBucket == -1 ==> n <= turn
        invariant nUBucket != -1 ==>
          0 <= nUBucket < NEW_BUCKET_COUNT && vvNew[nUBucket][hash.NewPos(service, nUBucket)] == nId
        decreases NEW_BUCKET_COUNT - n, nUBucket == -1
      {
        var nB := (n + nRnd) % NEW_BUCKET_COUNT;
        var nBpos := hash.NewPos(service, nB);
        if vvNew[nB][nBpos] == nId {
          nUBucket := nB;
        } else {
          n := n + 1;
        }
      }
    }

    ghost function SomeBucket(nId: int): (b: nat)
      requires S.Consistent(State()) && nId in mapInfo && !mapInfo[nId].inTried
      reads this
      ensures b < NEW_BUCKET_COUNT && vvNew[b][hash.NewPos(mapInfo[nId].Service(), b)] == nId
    {
      var refs := RefBuckets(hash, vvNew, mapInfo[nId].Service(), nId);
      assert |refs| >= 1;
      var b :| b in refs;
      b
    }

    lemma Rotation(start: nat, home: nat)
      requires home < NEW_BUCKET_COUNT
      ensures var turn := (home + NEW_BUCKET_COUNT - start % NEW_BUCKET_COUNT) % NEW_BUCKET_COUNT;
              (turn + start) % NEW_BUCKET_COUNT == home
    {
    }

    method Add(address: Address, source: NetAddr, timePenalty: int, routable: bool, coin: nat, now: int)
        returns (fNew: bool)
      requires S.Consistent(State())
      modifies this
      ensures (State(), fNew) == R.Add(old(State()), address, source, timePenalty, routable, coin, now)
      ensures S.Consistent(State())
    {
      hide NewSlots, RefCounts, RandomIndex, IdsBelow, NewIds, TriedIds, TriedSlots, Placed, S.Consistent, R.Place;
      hide R.Doublings, R.Refreshed, R.Uint32, R.Max;
      ghost var start := State();
      R.AddKeeps(start, address, source, timePenalty, routable, coin, now);
      Parts(start);
      if !routable {
        return false;
      }
      fNew := false;
      var found, nId := Find(address.service.net);
      var nTimePenalty := timePenalty;
      if address.service.net == source {
        nTimePenalty := 0;
      }
      if found {
        R.UpdateKeeps(start, nId, R.Refreshed(mapInfo[nId], address, nTimePenalty, now));
        var more := Refresh(nId, address, nTimePenalty, coin, now);
        if !more {
          return false;
        }
        Parts(State());
        S.NowLoose(State(), nId);
      } else {
        R.WelcomeKeeps(start, address, source, nTimePenalty);
        nId := Create(address, source);
        mapInfo := mapInfo[nId := mapInfo[nId].(address := address.(time :=
            R.Uint32(R.Max(0, address.time - nTimePenalty))))];
        nNew := nNew + 1;
        fNew := true;
        assert State() == R.Welcome(start, address, source, nTimePenalty);
      }
      Place(nId, source, now);
    }

    method Create(address: Address, source: NetAddr) returns (nId: int)
      modifies this
      ensures nId == old(nIdCount) && State() == R.Create(old(State()), address, source)
    {
      nId := nIdCount;
      nIdCount := nIdCount + 1;
      mapInfo := mapInfo[nId := AddrInfo(address, source, 0, 0, 0, 0, 0, false, -1)];
      mapAddr := mapAddr[address.service.net := nId];
      mapInfo := mapInfo[nId := mapInfo[nId].(randomPos := |vRandom|)];
      vRandom := vRandom + [nId];
    }

    /** A repeated announcement: updates the record, and says whether it may gain a reference. */
    method Refresh(nId: int, address: Address, nTimePenalty: int, coin: nat, now: int) returns (more: bool)
      requires nId in mapInfo
      modifies this
      ensures State() == R.Update(old(State()), nId, R.Refreshed(old(mapInfo)[nId], address, nTimePenalty, now))
      ensures more == R.Deserves(mapInfo[nId], address, coin)
    {
      hide R.Uint32, R.Max, R.Doublings;
      var fCurrentlyOnline := now - address.time < R.DAY;
      var nUpdateInterval := if fCurrentlyOnline then 60 * 60 else R.DAY;
      var info := mapInfo[nId];
      if address.time != 0 &&
         (info.address.time == 0 || info.address.time < address.time - nUpdateInterval - nTimePenalty) {
        info := info.(address := info.address.(time := R.Uint32(R.Max(0, address.time - nTimePenalty))));
      }
      info := info.(address := info.address.(services := info.address.services + address.services));
      mapInfo := mapInfo[nId := info];
      if address.time == 0 || (info.address.time != 0 && address.time <= info.address.time) {
        return false;
      }
      if info.inTried {
        return false;
      }
      if info.refCount == NEW_BUCKETS_PER_ADDRESS {
        return false;
      }
      var nFactor := Factor(info.refCount);
      if nFactor > 1 && coin != 0 {
        return false;
      }
      return true;
    }

    method Factor(refCount: int) returns (nFactor: nat)
      ensures nFactor == R.Doublings(refCount)
    {
      nFactor := 1;
      var n := 0;
      while n < refCount
        invariant 0 <= n && (n <= refCount || (n == 0 && refCount < 0))
        invariant nFactor == R.Doublings(n)
      {
        nFactor := nFactor * 2;
        n := n + 1;
      }
    }

    method Place(nId: int, source: NetAddr, now: int)
      requires S.Structure(State(), {nId}) && nId in mapInfo
      modifies this
      ensures State() == R.Place(old(State()), nId, source, now)
    {
      hide RefCounts, TriedSlots, AddrIndex, IdsBelow, NewIds, TriedIds, Placed, S.ClearNew, S.Forget, S.Structure;
      hide RandomIndex, NewSlots;
      ghost var start := State();
      S.StructureParts(start, {nId});
      S.LooseIsNew(mapInfo, nId);
      var nUBucket := hash.NewBucket(mapInfo[nId].Service(), source);
      var nUBucketPos := hash.NewPos(mapInfo[nId].Service(), nUBucket);
      if vvNew[nUBucket][nUBucketPos] != nId {
        var fInsert := vvNew[nUBucket][nUBucketPos] == EMPTY;
        if !fInsert {
          var infoExisting := mapInfo[vvNew[nUBucket][nUBucketPos]];
          if infoExisting.IsTerrible(now) || (infoExisting.refCount > 1 && mapInfo[nId].refCount == 0) {
            fInsert := true;
          }
        }
        if fInsert {
          S.ClearNewKeeps(start, nUBucket, nUBucketPos, {nId});
          S.ClearNewEffect(start, nUBucket, nUBucketPos);
          ClearNew(nUBucket, nUBucketPos);
          S.StructureParts(State(), {nId});
          mapInfo := mapInfo[nId := mapInfo[nId].(refCount := mapInfo[nId].refCount + 1)];
          vvNew := SetCell(vvNew, nUBucket, nUBucketPos, nId);
        } else {
          if mapInfo[nId].refCount == 0 {
            Delete(nId);
          }
        }
      }
    }

    method Attempt(service: Service, fCountFailure: bool, nTime: int)
      requires S.Consistent(State())
      modifies this
      ensures State() == R.Attempt(old(State()), service, fCountFailure, nTime) && S.Consistent(State())
    {
      hide NewSlots, RefCounts, RandomIndex, IdsBelow, NewIds, TriedIds, TriedSlots, Placed, S.Consistent;
      R.StatisticsKeep(State(), service, fCountFailure, nTime, {});
      Parts(State());
      var found, nId := Find(service.net);
      if !found || mapInfo[nId].Service() != service {
        return;
      }
      mapInfo := mapInfo[nId := mapInfo[nId].(lastTry := nTime)];
      if fCountFailure && mapInfo[nId].lastCountAttempt < nLastGood {
        mapInfo := mapInfo[nId := mapInfo[nId].(lastCountAttempt := nTime)];
        mapInfo := mapInfo[nId := mapInfo[nId].(attempts := mapInfo[nId].attempts + 1)];
      }
    }

    method Connected(service: Service, nTime: int)
      requires S.Consistent(State())
      modifies this
      ensures State() == R.Connected(old(State()), service, nTime) && S.Consistent(State())
    {
      hide NewSlots, RefCounts, RandomIndex, IdsBelow, NewIds, TriedIds, TriedSlots, Placed, S.Consistent;
      R.StatisticsKeep(State(), service, false, nTime, {});
      Parts(State());
      var found, nId := Find(service.net);
      if !found || mapInfo[nId].Service() != service {
        return;
      }
      var nUpdateInterval := 20 * 60;
      if nTime - mapInfo[nId].address.time > nUpdateInterval {
        mapInfo := mapInfo[nId := mapInfo[nId].(address := mapInfo[nId].address.(time := R.Uint32(nTime)))];
      }
    }

    method SetServices(service: Service, nServices: ServiceFlags)
      requires S.Consistent(State())
      modifies this
      ensures State() == R.SetServices(old(State()), service, nServices) && S.Consistent(State())
    {
      hide NewSlots, RefCounts, RandomIndex, IdsBelow, NewIds, TriedIds, TriedSlots, Placed, S.Consistent;
      R.StatisticsKeep(State(), service, false, 0, nServices);
      Parts(State());
      var found, nId := Find(service.net);
      if !found || mapInfo[nId].Service() != service {
        return;
      }
      mapInfo := mapInfo[nId := mapInfo[nId].(address := mapInfo[nId].address.(services := nServices))];
    }

    method GetAddr(draw: nat -> nat, now: int) returns (vAddr: seq<Address>)
      requires S.Consistent(State())
      modifies this
      ensures (State(), vAddr) == R.GetAddr(old(State()), draw, now) && S.Consistent(State())
    {
      hide NewSlots, RefCounts, AddrIndex, IdsBelow, NewIds, TriedIds, TriedSlots, Placed, R.Gather, S.Swap;
      hide RandomIndex, R.Pick;
      ghost var start := State();
      ghost var m := R.GetAddrKeeps(start, draw, now);
      var nNodes := GETADDR_MAX_PCT * |vRandom| / 100;
      if nNodes > GETADDR_MAX {
        nNodes := GETADDR_MAX;
      }
      vAddr := [];
      var n := 0;
      assert [] + R.Gather(start, draw, 0, 0, nNodes, now).1 == R.Gather(start, draw, 0, 0, nNodes, now).1;
      ghost var total := R.GetAddr(start, draw, now);
      while n < |vRandom| && |vAddr| < nNodes
        invariant 0 <= n <= |vRandom| && RandomIndex(mapInfo, vRandom)
        invariant total == (R.Gather(State(), draw, n, |vAddr|, nNodes, now).0,
                            vAddr + R.Gather(State(), draw, n, |vAddr|, nNodes, now).1)
        decreases |vRandom| - n
      {
        R.GatherStep(State(), draw, n, vAddr, nNodes, now, total);
        var nRndPos := R.Pick(draw(n), n, |vRandom|);
        SwapRandom(n, nRndPos);
        var ai := mapInfo[vRandom[n]];
        if !ai.IsTerrible(now) {
          vAddr := vAddr + [ai.address];
        }
        n := n + 1;
      }
      R.GatherEnd(State(), draw, n, |vAddr|, nNodes, now);
      assert vAddr + [] == vAddr;
    }
  }
}
