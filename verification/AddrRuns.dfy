/** The manager's public operations, and what holds after any run of them. */
module AddrRuns {
  import opened AddrBook
  import opened AddrSteps
  import N = Numbers

  const DAY: int := 24 * 60 * 60

  function Max(a: int, b: int): int { if a < b then b else a }

  function Uint32(x: int): nat { x % 0x1_0000_0000 }

  /** The manager has a record for exactly this address and port. */
  predicate Knows(s: Book, service: Service)
  {
    service.net in s.addr && s.addr[service.net] in s.info && s.info[s.addr[service.net]].Service() == service
  }

  /** Rewrites the statistics of one record. */
  function Update(s: Book, n: int, record: AddrInfo): Book
  {
    s.(info := s.info[n := record])
  }

  lemma UpdateKeeps(s: Book, n: int, record: AddrInfo)
    requires Consistent(s) && n in s.info
    requires var r := s.info[n];
             record.Service() == r.Service() && record.randomPos == r.randomPos &&
             record.refCount == r.refCount && record.inTried == r.inTried
    ensures Consistent(Update(s, n, record))
  {
    hide NewSlots, RefCounts, TriedSlots, AddrIndex, RandomIndex, IdsBelow, Placed, NewIds, TriedIds;
    var t := Update(s, n, record);
    SamePlacesKeeps(s.info, t.info, s.addr, s.random, s.idCount);
    SameStatusKeeps(s.hash, s.info, t.info, s.table, s.tried, {});
  }

  // ----- Good -----

  function Good(s: Book, service: Service, time: int): Book
    requires Consistent(s)
  {
    var s1 := s.(lastGood := time);
    if !Knows(s, service) then s1 else
      var n := s.addr[service.net];
      var record := s.info[n].(lastSuccess := time, lastTry := time, attempts := 0);
      UpdateKeeps(s1, n, record);
      var s2 := Update(s1, n, record);
      if record.inTried then s2 else MakeTried(s2, n)
  }

  /** Good keeps every index, and afterwards the address it was told about is tried. */
  lemma GoodKeeps(s: Book, service: Service, time: int)
    requires Consistent(s)
    ensures var t := Good(s, service, time);
            && Consistent(t) && t.lastGood == time
            && (if Knows(s, service)
                then Knows(t, service) && t.addr[service.net] == s.addr[service.net] &&
                     t.info[t.addr[service.net]].inTried && t.info[t.addr[service.net]].lastSuccess == time
                else t == s.(lastGood := time))
  {
    hide NewSlots, RefCounts, TriedSlots, RandomIndex, IdsBelow, Placed, NewIds, TriedIds, MakeTried;
    if Knows(s, service) {
      var n := s.addr[service.net];
      var record := s.info[n].(lastSuccess := time, lastTry := time, attempts := 0);
      var s2 := Update(s.(lastGood := time), n, record);
      UpdateKeeps(s.(lastGood := time), n, record);
      if !record.inTried {
        MakeTriedKeeps(s2, n);
      }
    }
  }

  /** Good leaves the recorded times in order exactly when it is given a positive time,
      or an address it has no record of. */
  lemma GoodTimes(s: Book, service: Service, time: int)
    requires Valid(s)
    ensures Valid(Good(s, service, time)) <==> time > 0 || !Knows(s, service)
  {
    hide NewSlots, RefCounts, TriedSlots, RandomIndex, IdsBelow, Placed, NewIds, TriedIds, MakeTried;
    GoodKeeps(s, service, time);
    if Knows(s, service) {
      var n := s.addr[service.net];
      var record := s.info[n].(lastSuccess := time, lastTry := time, attempts := 0);
      var s2 := Update(s.(lastGood := time), n, record);
      UpdateKeeps(s.(lastGood := time), n, record);
      if !record.inTried {
        MakeTriedMoves(s2, n);
      }
    }
  }

  /** Good forgets at most one record, a new one with a single reference, and never the one it is about. */
  lemma GoodLoses(s: Book, service: Service, time: int)
    requires Consistent(s) && Knows(s, service)
    ensures LostAtMost(s.info, Good(s, service, time).info, s.addr[service.net])
  {
    hide NewSlots, RefCounts, TriedSlots, RandomIndex, IdsBelow, Placed, NewIds, TriedIds, MakeTried;
    var n := s.addr[service.net];
    var record := s.info[n].(lastSuccess := time, lastTry := time, attempts := 0);
    var s2 := Update(s.(lastGood := time), n, record);
    UpdateKeeps(s.(lastGood := time), n, record);
    assert s2.info.Keys == s.info.Keys;
    if !record.inTried {
      MakeTriedMoves(s2, n);
    }
  }

  // ----- Attempt, Connected, SetServices -----

  function Attempt(s: Book, service: Service, countFailure: bool, time: int): Book
  {
    if !Knows(s, service) then s else
      var n := s.addr[service.net];
      var r := s.info[n].(lastTry := time);
      Update(s, n, if countFailure && r.lastCountAttempt < s.lastGood
                   then r.(lastCountAttempt := time, attempts := r.attempts + 1) else r)
  }

  function Connected(s: Book, service: Service, time: int): Book
  {
    if !Knows(s, service) then s else
      var n := s.addr[service.net];
      var r := s.info[n];
      if time - r.address.time > 20 * 60
      then Update(s, n, r.(address := r.address.(time := Uint32(time)))) else s
  }

  function SetServices(s: Book, service: Service, services: ServiceFlags): Book
  {
    if !Knows(s, service) then s else
      var n := s.addr[service.net];
      var r := s.info[n];
      Update(s, n, r.(address := r.address.(services := services)))
  }

  /** The three statistics updates keep every index; only a negative attempt time can spoil the times. */
  lemma StatisticsKeep(s: Book, service: Service, countFailure: bool, time: int, services: ServiceFlags)
    requires Consistent(s)
    ensures Consistent(Attempt(s, service, countFailure, time))
    ensures Consistent(Connected(s, service, time))
    ensures Consistent(SetServices(s, service, services))
    ensures Times(s.info) ==> Times(Connected(s, service, time).info) && Times(SetServices(s, service, services).info)
    ensures Times(s.info) ==> (Times(Attempt(s, service, countFailure, time).info) <==> time >= 0 || !Knows(s, service))
  {
    hide NewSlots, RefCounts, TriedSlots, AddrIndex, RandomIndex, IdsBelow, Placed, NewIds, TriedIds, Consistent;
    if Knows(s, service) {
      var n := s.addr[service.net];
      var r := s.info[n];
      UpdateKeeps(s, n, Attempt(s, service, countFailure, time).info[n]);
      UpdateKeeps(s, n, r.(address := r.address.(time := Uint32(time))));
      UpdateKeeps(s, n, r.(address := r.address.(services := services)));
      assert Attempt(s, service, countFailure, time) == Update(s, n, Attempt(s, service, countFailure, time).info[n]);
    }
  }

  // ----- Add -----

  /** A record for an address not seen before, not yet referenced. */
  function Create(s: Book, address: Address, source: NetAddr): Book
  {
    s.(idCount := s.idCount + 1,
       info := s.info[s.idCount := AddrInfo(address, source, 0, 0, 0, 0, 0, false, |s.random|)],
       addr := s.addr[address.service.net := s.idCount],
       random := s.random + [s.idCount])
  }

  lemma CreateKeeps(s: Book, address: Address, source: NetAddr)
    requires Structure(s, {}) && address.service.net !in s.addr
    ensures var t := Create(s, address, source);
            && Structure(t, {s.idCount})
            && NewIds(t.info) == NewIds(s.info) + {s.idCount} && TriedIds(t.info) == TriedIds(s.info)
            && |NewIds(t.info)| == |NewIds(s.info)| + 1
            && s.idCount !in s.info
  {
    hide RefCounts;
    var t := Create(s, address, source);
    var n := s.idCount;
    CreateKeepsRefs(s.hash, s.info, t.info, s.table, n);
  }

  lemma CreateKeepsRefs(h: Hashing, before: Infos, after: Infos, table: Table, n: int)
    requires NewSlots(h, before, table) && RefCounts(h, before, table) && n !in before && n != EMPTY
    requires n in after && after == before[n := after[n]] && after[n].refCount == 0
    ensures RefCounts(h, after, table)
  {
    assert RefBuckets(h, table, after[n].Service(), n) == {};
  }

  /** Tries to give record n a reference in the bucket its announcer leads to; an occupied cell is
      taken over only from a terrible record, or for a first reference from one with several. */
  function Place(s: Book, n: int, source: NetAddr, now: int): Book
    requires Structure(s, {n}) && n in s.info
  {
    hide RefCounts, TriedSlots, AddrIndex, IdsBelow, NewIds, TriedIds;
    var b := s.hash.NewBucket(s.info[n].Service(), source);
    var i := s.hash.NewPos(s.info[n].Service(), b);
    var d := s.table[b][i];
    if d == n then s
    else if d == EMPTY || s.info[d].IsTerrible(now) || (s.info[d].refCount > 1 && s.info[n].refCount == 0) then
      StructureParts(s, {n});
      ClearNewKeeps(s, b, i, {n});
      ClearNewEffect(s, b, i);
      var t := ClearNew(s, b, i);
      StructureParts(t, {n});
      Refer(t, b, n)
    else if s.info[n].refCount == 0 then Forget(s, n)
    else s
  }

  lemma Referenced(h: Hashing, info: Infos, table: Table, b: nat, n: int)
    requires Shape(table, NEW_BUCKET_COUNT) && RefCounts(h, info, table) && n in info && b < NEW_BUCKET_COUNT
    requires table[b][h.NewPos(info[n].Service(), b)] == n
    ensures info[n].refCount >= 1
  {
    assert b in RefBuckets(h, table, info[n].Service(), n);
  }

  lemma PlaceKeeps(s: Book, n: int, source: NetAddr, now: int)
    requires Structure(s, {n}) && Counters(s, 0) && n in s.info && s.info[n].refCount < NEW_BUCKETS_PER_ADDRESS
    ensures Consistent(Place(s, n, source, now))
  {
    hide TriedSlots, AddrIndex, IdsBelow, NewIds, TriedIds, ClearNew, Forget, RefCounts;
    StructureParts(s, {n});
    var b := s.hash.NewBucket(s.info[n].Service(), source);
    var i := s.hash.NewPos(s.info[n].Service(), b);
    var d := s.table[b][i];
    assert {n} - {n} == {};
    if d == n {
      Referenced(s.hash, s.info, s.table, b, n);
    } else if d == EMPTY || s.info[d].IsTerrible(now) || (s.info[d].refCount > 1 && s.info[n].refCount == 0) {
      ClearNewKeeps(s, b, i, {n});
      ClearNewEffect(s, b, i);
      var t := ClearNew(s, b, i);
      StructureParts(t, {n});
      ReferStructure(t, b, n, {n});
    } else if s.info[n].refCount == 0 {
      ForgetKeeps(s, n, {n});
    }
  }

  /** The newcomer's record, its time reduced by the penalty, counted as new but not yet referenced. */
  function Welcome(s: Book, address: Address, source: NetAddr, penalty: int): Book
  {
    var t := Create(s, address, source).(nNew := s.nNew + 1);
    Update(t, s.idCount, t.info[s.idCount].(address := address.(time := Uint32(Max(0, address.time - penalty)))))
  }

  lemma WelcomeKeeps(s: Book, address: Address, source: NetAddr, penalty: int)
    requires Consistent(s) && address.service.net !in s.addr
    ensures var t := Welcome(s, address, source, penalty);
            var n := s.idCount;
            && Structure(t, {n}) && Counters(t, 0)
            && n !in s.info && n in t.info && t.info == s.info[n := t.info[n]] && t.info.Keys == s.info.Keys + {n}
            && t.info[n].Service() == address.service && t.info[n].refCount == 0 && !t.info[n].inTried
            && t.info[n].lastTry == 0 && t.info[n].lastSuccess == 0
            && t.table == s.table && t.hash == s.hash
  {
    hide Structure, Create, Update, NewIds, TriedIds, Uint32, Max, Welcome;
    CreateKeeps(s, address, source);
    WelcomeRecord(s, address, source, penalty);
    WelcomeStructure(s, address, source, penalty);
  }

  lemma WelcomeRecord(s: Book, address: Address, source: NetAddr, penalty: int)
    requires s.idCount !in s.info
    ensures var t := Welcome(s, address, source, penalty);
            var n := s.idCount;
            && t.nNew == s.nNew + 1 && t.nTried == s.nTried
            && n in t.info && t.info == s.info[n := t.info[n]] && t.info.Keys == s.info.Keys + {n}
            && t.info[n].Service() == address.service && t.info[n].refCount == 0 && !t.info[n].inTried
            && t.info[n].lastTry == 0 && t.info[n].lastSuccess == 0
            && t.table == s.table && t.hash == s.hash
  {
    hide Uint32, Max;
  }

  lemma WelcomeStructure(s: Book, address: Address, source: NetAddr, penalty: int)
    requires Structure(s, {}) && address.service.net !in s.addr
    ensures var t, u := Welcome(s, address, source, penalty), Create(s, address, source);
            && Structure(t, {s.idCount})
            && NewIds(t.info) == NewIds(u.info) && TriedIds(t.info) == TriedIds(u.info)
  {
    hide NewSlots, RefCounts, TriedSlots, AddrIndex, RandomIndex, IdsBelow, Placed, NewIds, TriedIds, Uint32, Max;
    hide Structure;
    CreateKeeps(s, address, source);
    var t := Create(s, address, source).(nNew := s.nNew + 1);
    StructureIgnoresNew(Create(s, address, source), {s.idCount}, s.nNew + 1);
    LooseUpdateKeeps(t, s.idCount, t.info[s.idCount].(address :=
        address.(time := Uint32(Max(0, address.time - penalty)))));
  }

  function Doublings(n: int): nat
    decreases n
  {
    if n <= 0 then 1 else 2 * Doublings(n - 1)
  }

  /** The record after a repeated announcement: a newer time is taken over, services accumulate. */
  function Refreshed(r: AddrInfo, address: Address, penalty: int, now: int): (q: AddrInfo)
    ensures q == r.(address := r.address.(time := q.address.time, services := r.address.services + address.services))
  {
    var interval := if now - address.time < DAY then 60 * 60 else DAY;
    var time := if address.time != 0 && (r.address.time == 0 || r.address.time < address.time - interval - penalty)
                then Uint32(Max(0, address.time - penalty)) else r.address.time;
    r.(address := r.address.(time := time, services := r.address.services + address.services))
  }

  /** Whether a repeated announcement may earn the record another reference. */
  predicate Deserves(r: AddrInfo, address: Address, coin: nat)
  {
    && address.time != 0
    && !(r.address.time != 0 && address.time <= r.address.time)
    && !r.inTried
    && r.refCount != NEW_BUCKETS_PER_ADDRESS
    && !(Doublings(r.refCount) > 1 && coin != 0)
  }

  /** Add_: routable is the caller's verdict on the address, coin the random draw, now the adjusted time. */
  function Add(s: Book, address: Address, source: NetAddr, timePenalty: int, routable: bool, coin: nat, now: int)
               : (r: (Book, bool))
    requires Consistent(s)
  {
    hide NewSlots, RefCounts, TriedSlots, RandomIndex, NewIds, TriedIds;
    var penalty := if address.service.net == source then 0 else timePenalty;
    if !routable then (s, false)
    else if address.service.net in s.addr then
      var n := s.addr[address.service.net];
      var record := Refreshed(s.info[n], address, penalty, now);
      UpdateKeeps(s, n, record);
      var t := Update(s, n, record);
      if Deserves(record, address, coin) then (Place(t, n, source, now), false) else (t, false)
    else
      WelcomeKeeps(s, address, source, penalty);
      (Place(Welcome(s, address, source, penalty), s.idCount, source, now), true)
  }

  lemma LooseUpdateKeeps(s: Book, n: int, record: AddrInfo)
    requires Structure(s, {n}) && n in s.info
    requires var r := s.info[n];
             record.Service() == r.Service() && record.randomPos == r.randomPos &&
             record.refCount == r.refCount && record.inTried == r.inTried
    ensures Structure(Update(s, n, record), {n})
    ensures NewIds(Update(s, n, record).info) == NewIds(s.info)
    ensures TriedIds(Update(s, n, record).info) == TriedIds(s.info)
  {
    hide NewSlots, RefCounts, TriedSlots, AddrIndex, RandomIndex, IdsBelow, Placed, NewIds, TriedIds;
    var t := Update(s, n, record);
    SamePlacesKeeps(s.info, t.info, s.addr, s.random, s.idCount);
    SameStatusKeeps(s.hash, s.info, t.info, s.table, s.tried, {n});
  }

  /** Add keeps every index, and reports a new address exactly when a routable one was unknown. */
  lemma AddKeeps(s: Book, address: Address, source: NetAddr, timePenalty: int, routable: bool, coin: nat, now: int)
    requires Consistent(s)
    ensures var r := Add(s, address, source, timePenalty, routable, coin, now);
            && Consistent(r.0)
            && (r.1 <==> routable && forall n :: n in s.info ==> s.info[n].Net() != address.service.net)
  {
    hide NewSlots, TriedSlots, RandomIndex, NewIds, TriedIds, Place;
    var penalty := if address.service.net == source then 0 else timePenalty;
    if routable && address.service.net in s.addr {
      var n := s.addr[address.service.net];
      var record := Refreshed(s.info[n], address, penalty, now);
      UpdateKeeps(s, n, record);
      if Deserves(record, address, coin) {
        PlaceKeeps(Update(s, n, record), n, source, now);
      }
    } else if routable {
      WelcomeKeeps(s, address, source, penalty);
      PlaceKeeps(Welcome(s, address, source, penalty), s.idCount, source, now);
    }
  }

  /** Placement changes nobody's statistics and makes nobody tried. */
  lemma PlaceCarries(s: Book, n: int, source: NetAddr, now: int)
    requires Structure(s, {n}) && n in s.info
    ensures Carried(s.info, Place(s, n, source, now).info, EMPTY)
  {
    hide TriedSlots, AddrIndex, IdsBelow, NewIds, TriedIds, ClearNew, Forget, RefCounts, RandomIndex;
    StructureParts(s, {n});
    var b := s.hash.NewBucket(s.info[n].Service(), source);
    var i := s.hash.NewPos(s.info[n].Service(), b);
    var d := s.table[b][i];
    if d != n && (d == EMPTY || s.info[d].IsTerrible(now) || (s.info[d].refCount > 1 && s.info[n].refCount == 0)) {
      ClearNewKeeps(s, b, i, {n});
      ClearNewCarries(s, b, i, EMPTY);
      var t := ClearNew(s, b, i);
      CarriedUpdate(t.info, n, t.info[n].refCount + 1, t.info[n].inTried, EMPTY);
      CarriedTrans(s.info, t.info, Place(s, n, source, now).info, EMPTY);
    } else if d != n && s.info[n].refCount == 0 {
      ForgetKeepsRandom(s, n);
    }
  }

  lemma AddTimes(s: Book, address: Address, source: NetAddr, timePenalty: int, routable: bool, coin: nat, now: int)
    requires Valid(s)
    ensures Valid(Add(s, address, source, timePenalty, routable, coin, now).0)
  {
    hide NewSlots, TriedSlots, RandomIndex, NewIds, TriedIds, Place, RefCounts;
    AddKeeps(s, address, source, timePenalty, routable, coin, now);
    var penalty := if address.service.net == source then 0 else timePenalty;
    if routable && address.service.net in s.addr {
      var n := s.addr[address.service.net];
      var record := Refreshed(s.info[n], address, penalty, now);
      UpdateKeeps(s, n, record);
      if Deserves(record, address, coin) {
        PlaceCarries(Update(s, n, record), n, source, now);
      }
    } else if routable {
      WelcomeKeeps(s, address, source, penalty);
      PlaceCarries(Welcome(s, address, source, penalty), s.idCount, source, now);
    }
  }

  /** Whether a first-time address finds room in the cell its announcer leads to. */
  predicate HasRoom(s: Book, service: Service, source: NetAddr, now: int)
    requires Structure(s, {})
  {
    var b := s.hash.NewBucket(service, source);
    var d := s.table[b][s.hash.NewPos(service, b)];
    d == EMPTY || s.info[d].IsTerrible(now) || s.info[d].refCount > 1
  }

  lemma PlaceFirst(s: Book, n: int, source: NetAddr, now: int)
    requires Structure(s, {n}) && n in s.info && s.info[n].refCount == 0
    ensures var b := s.hash.NewBucket(s.info[n].Service(), source);
            var d := s.table[b][s.hash.NewPos(s.info[n].Service(), b)];
            var t := Place(s, n, source, now);
            && d != n
            && (n in t.info <==> d == EMPTY || s.info[d].IsTerrible(now) || s.info[d].refCount > 1)
            && (n !in t.info ==> t.info.Keys == s.info.Keys - {n})
            && t.info.Keys <= s.info.Keys
            && forall m :: m in t.info ==> t.info[m].Service() == s.info[m].Service()
  {
    hide TriedSlots, AddrIndex, IdsBelow, NewIds, TriedIds, ClearNew, Forget, RefCounts, RandomIndex, Placed;
    StructureParts(s, {n});
    Unreferenced(s.hash, s.info, s.table, n);
    PlaceCarries(s, n, source, now);
    var b := s.hash.NewBucket(s.info[n].Service(), source);
    var i := s.hash.NewPos(s.info[n].Service(), b);
    var d := s.table[b][i];
    if d == EMPTY || s.info[d].IsTerrible(now) || s.info[d].refCount > 1 {
      ClearNewKeeps(s, b, i, {n});
      ClearNewCarries(s, b, i, EMPTY);
    } else {
      ForgetKeepsRandom(s, n);
    }
  }

  /** Although Add reports a routable unknown address as new, it remembers it exactly when there is room. */
  lemma AddRemembers(s: Book, address: Address, source: NetAddr, timePenalty: int, coin: nat, now: int)
    requires Consistent(s) && address.service.net !in s.addr
    ensures Add(s, address, source, timePenalty, true, coin, now).1
    ensures Knows(Add(s, address, source, timePenalty, true, coin, now).0, address.service)
            <==> HasRoom(s, address.service, source, now)
  {
    hide RefCounts, TriedSlots, RandomIndex, NewIds, TriedIds, Place, IdsBelow, Placed, AddrIndex, Welcome, NewSlots;
    var penalty := if address.service.net == source then 0 else timePenalty;
    var u := Welcome(s, address, source, penalty);
    WelcomeKeeps(s, address, source, penalty);
    PlaceFirst(u, s.idCount, source, now);
    PlaceKeeps(u, s.idCount, source, now);
    var v := Place(u, s.idCount, source, now);
    OnlyNewcomer(s.info, s.addr, u.info, v.info, v.addr, s.idCount, address.service);
  }

  /** Nobody but the newcomer has its address. */
  lemma OnlyNewcomer(old0: Infos, oldAddr: map<NetAddr, int>, mid: Infos, after: Infos, addr: map<NetAddr, int>,
                     n: int, service: Service)
    requires AddrIndex(old0, oldAddr) && service.net !in oldAddr
    requires mid.Keys == old0.Keys + {n} && n !in old0 && mid[n].Service() == service
    requires (forall m :: m in old0 ==> mid[m] == old0[m])
    requires AddrIndex(after, addr) && after.Keys <= mid.Keys && forall m :: m in after ==>
        after[m].Service() == mid[m].Service()
    ensures n in after <==>
      service.net in addr && addr[service.net] in after && after[addr[service.net]].Service() == service
  {
    if service.net in addr && addr[service.net] in after {
      var m := addr[service.net];
      assert m in mid.Keys;
      assert m in old0 ==> old0[m].Net() in oldAddr;
    }
  }

  /** A repeated announcement earns the record a reference, in the cell that its announcer leads to, if it is
      newer than what is on record, the record is new and not full, the draw is zero, and the cell is empty or
      held by a terrible record; otherwise no reference changes. */
  lemma AddRefers(s: Book, address: Address, source: NetAddr, timePenalty: int, coin: nat, now: int)
    requires Consistent(s) && address.service.net in s.addr
    ensures var n := s.addr[address.service.net];
      var t := Add(s, address, source, timePenalty, true, coin, now).0;
      && n in s.info && n in t.info && Shape(s.table, NEW_BUCKET_COUNT)
      && var r := s.info[n];
         var b := s.hash.NewBucket(r.Service(), source);
         var i := s.hash.NewPos(r.Service(), b);
         var d := s.table[b][i];
         && (d != EMPTY ==> d in s.info)
         && var earns := address.time > t.info[n].address.time && !r.inTried && r.refCount < NEW_BUCKETS_PER_ADDRESS
                         && coin == 0 && d != n && (d == EMPTY || s.info[d].IsTerrible(now));
            && t.info[n].refCount == r.refCount + (if earns then 1 else 0)
            && t.table == if earns then SetCell(s.table, b, i, n) else s.table
  {
    hide RefCounts, TriedSlots, RandomIndex, NewIds, TriedIds, IdsBelow, Place, NewSlots, AddrIndex, Refreshed;
    StructureParts(s, {});
    var n := s.addr[address.service.net];
    KnownRecord(s, address.service.net);
    var penalty := if address.service.net == source then 0 else timePenalty;
    var record := Refreshed(s.info[n], address, penalty, now);
    UpdateKeeps(s, n, record);
    DoublingsAtLeast(record.refCount);
    var t := Update(s, n, record);
    if Deserves(record, address, coin) {
      NowLoose(t, n);
      PlaceAgain(t, n, source, now);
    }
  }

  lemma KnownRecord(s: Book, net: NetAddr)
    requires Structure(s, {}) && net in s.addr
    ensures var n := s.addr[net];
      && n in s.info && s.info[n].Net() == net
      && (!s.info[n].inTried ==> 1 <= s.info[n].refCount <= NEW_BUCKETS_PER_ADDRESS)
  {
    hide NewSlots, TriedSlots, RandomIndex, IdsBelow, RefBuckets;
  }

  /** The odds against another reference double with each one there is. */
  lemma {:induction false} DoublingsIs(n: nat)
    ensures Doublings(n) == N.Pow(2, n)
    decreases n
  {
    if n > 0 { DoublingsIs(n - 1); }
  }

  lemma DoublingsAtLeast(n: int)
    ensures n >= 1 ==> Doublings(n) >= 2
  {
    if n >= 2 { DoublingsAtLeast(n - 1); }
  }

  /** Placing a record that has references already. */
  lemma PlaceAgain(s: Book, n: int, source: NetAddr, now: int)
    requires Structure(s, {n}) && n in s.info && s.info[n].refCount >= 1
    ensures Shape(s.table, NEW_BUCKET_COUNT)
    ensures var b := s.hash.NewBucket(s.info[n].Service(), source);
      var i := s.hash.NewPos(s.info[n].Service(), b);
      var d := s.table[b][i];
      var t := Place(s, n, source, now);
      && (d != EMPTY ==> d in s.info)
      && var earns := d != n && (d == EMPTY || s.info[d].IsTerrible(now));
         && n in t.info && t.info[n].address == s.info[n].address
         && t.info[n].refCount == s.info[n].refCount + (if earns then 1 else 0)
         && t.table == if earns then SetCell(s.table, b, i, n) else s.table
  {
    hide TriedSlots, AddrIndex, IdsBelow, NewIds, TriedIds, ClearNew, Forget, RefCounts, RandomIndex, SetCell;
    StructureParts(s, {n});
    var b := s.hash.NewBucket(s.info[n].Service(), source);
    var i := s.hash.NewPos(s.info[n].Service(), b);
    var d := s.table[b][i];
    if d != n && (d == EMPTY || s.info[d].IsTerrible(now)) {
      ClearNewKeeps(s, b, i, {n});
      ClearNewEffect(s, b, i);
      SetTwice(s.table, b, i, n);
    }
  }

  lemma SetTwice(t: Table, b: nat, i: nat, n: int)
    requires Shape(t, NEW_BUCKET_COUNT) && b < NEW_BUCKET_COUNT && i < BUCKET_SIZE
    ensures SetCell(SetCell(t, b, i, EMPTY), b, i, n) == SetCell(t, b, i, n)
  {
    assert t[b][i := EMPTY][i := n] == t[b][i := n];
  }

  // ----- GetAddr -----

  /** At most 23 percent of the addresses, and at most 2500. */
  function GetAddrLimit(size: nat): (limit: nat)
    ensures limit <= 2500 && 100 * limit <= 23 * size && (limit == 2500 || 100 * (limit + 1) > 23 * size)
  {
    var nodes := GETADDR_MAX_PCT * size / 100;
    if nodes > GETADDR_MAX then GETADDR_MAX else nodes
  }

  /** A random draw as a position that has not been visited yet. */
  function Pick(x: nat, n: nat, size: nat): (q: nat)
    requires n < size
    ensures n <= q < size
  {
    x % (size - n) + n
  }

  /** Shuffles from position n on, collecting decent addresses until there are enough.
      The draw at position n is any number, reduced to the positions not yet visited. */
  function Gather(s: Book, draw: nat -> nat, n: nat, have: nat, limit: nat, now: int): (r: (Book, seq<Address>))
    requires RandomIndex(s.info, s.random) && n <= |s.random|
    ensures |r.0.random| == |s.random|
    decreases |s.random| - n
  {
    if n == |s.random| || have >= limit then (s, []) else
      var q := Pick(draw(n), n, |s.random|);
      SwapKeepsIndex(s, n, q);
      var t := Swap(s, n, q);
      var a := t.info[t.random[n]];
      if a.IsTerrible(now) then Gather(t, draw, n + 1, have, limit, now)
      else
        var rest := Gather(t, draw, n + 1, have + 1, limit, now);
        (rest.0, [a.address] + rest.1)
  }

  /** One round of the shuffle, seen from the total it contributes to. */
  lemma GatherStep(s: Book, draw: nat -> nat, n: nat, had: seq<Address>, limit: nat, now: int,
      total: (Book, seq<Address>))
    requires RandomIndex(s.info, s.random) && n < |s.random| && |had| < limit
    requires total == (Gather(s, draw, n, |had|, limit, now).0, had + Gather(s, draw, n, |had|, limit, now).1)
    ensures var q := Pick(draw(n), n, |s.random|);
            && s.random[n] in s.info && s.random[q] in s.info
            && var t := Swap(s, n, q);
               && RandomIndex(t.info, t.random) && |t.random| == |s.random| && t.random[n] in t.info
               && var a := t.info[t.random[n]];
                  var has := if a.IsTerrible(now) then had else had + [a.address];
                  total == (Gather(t, draw, n + 1, |has|, limit, now).0,
                      has + Gather(t, draw, n + 1, |has|, limit, now).1)
  {
    hide Pick;
    var q := Pick(draw(n), n, |s.random|);
    SwapKeepsIndex(s, n, q);
    var t := Swap(s, n, q);
    var a := t.info[t.random[n]];
    if !a.IsTerrible(now) {
      var rest := Gather(t, draw, n + 1, |had| + 1, limit, now).1;
      assert had + ([a.address] + rest) == (had + [a.address]) + rest;
    }
  }

  lemma GatherEnd(s: Book, draw: nat -> nat, n: nat, have: nat, limit: nat, now: int)
    requires RandomIndex(s.info, s.random) && n <= |s.random| && (n == |s.random| || have >= limit)
    ensures Gather(s, draw, n, have, limit, now) == (s, [])
  {
  }

  function GetAddr(s: Book, draw: nat -> nat, now: int): (Book, seq<Address>)
    requires Consistent(s)
  {
    Gather(s, draw, 0, 0, GetAddrLimit(|s.random|), now)
  }

  /** The decent addresses among the given ids, in order. */
  function Decent(info: Infos, ids: seq<int>, now: int): seq<Address>
    requires forall p :: 0 <= p < |ids| ==> ids[p] in info
  {
    if ids == [] then []
    else if info[ids[0]].IsTerrible(now) then Decent(info, ids[1..], now)
    else [info[ids[0]].address] + Decent(info, ids[1..], now)
  }

  /** What the shuffle reads off is a stretch of the order it leaves behind. */
  lemma {:induction false} GatherReads(s: Book, draw: nat -> nat, n: nat, have: nat, limit: nat, now: int)
      returns (m: nat)
    requires RandomIndex(s.info, s.random) && n <= |s.random| && have <= limit
    ensures var r := Gather(s, draw, n, have, limit, now);
            && RandomIndex(r.0.info, r.0.random) && SameButOrder(s.info, r.0.info) && r.0.info.Keys == s.info.Keys
            && r.0 == s.(info := r.0.info, random := r.0.random)
            && r.0.random[..n] == s.random[..n]
            && n <= m <= |s.random|
            && r.1 == Decent(r.0.info, r.0.random[n..m], now)
            && have + |r.1| <= limit
            && (m == |s.random| || have + |r.1| == limit)
    decreases |s.random| - n
  {
    hide RandomIndex, Swap, Pick;
    if n == |s.random| || have >= limit {
      m := n;
    } else {
      var q := Pick(draw(n), n, |s.random|);
      SwapKeepsIndex(s, n, q);
      RandomMembers(s.info, s.random);
      var t := Swap(s, n, q);
      SwapPrefix(s, n, q);
      var terrible := t.info[t.random[n]].IsTerrible(now);
      var more := if terrible then have else have + 1;
      m := GatherReads(t, draw, n + 1, more, limit, now);
      var rest := Gather(t, draw, n + 1, more, limit, now);
      var ids := rest.0.random[n..m];
      assert rest.0.random[n] == rest.0.random[..n + 1][n] == t.random[..n + 1][n] == t.random[n];
      SliceStep(rest.0.random, n, m);
      assert rest.0.random[..n] == rest.0.random[..n + 1][..n] == t.random[..n + 1][..n] == t.random[..n];
    }
  }

  lemma SliceStep<T>(xs: seq<T>, n: nat, m: nat)
    requires n < m <= |xs|
    ensures xs[n..m][0] == xs[n] && xs[n..m][1..] == xs[n + 1..m]
  {
  }

  lemma RandomMembers(info: Infos, random: seq<int>)
    requires RandomIndex(info, random)
    ensures forall p :: 0 <= p < |random| ==> random[p] in info
  {
  }

  lemma SwapPrefix(s: Book, n: nat, q: nat)
    requires RandomIndex(s.info, s.random) && n <= q < |s.random|
    ensures Swap(s, n, q).random[..n] == s.random[..n] && |Swap(s, n, q).random| == |s.random|
    ensures Swap(s, n, q) == s.(info := Swap(s, n, q).info, random := Swap(s, n, q).random)
    ensures forall p :: 0 <= p < |s.random| ==> Swap(s, n, q).random[p] in Swap(s, n, q).info
  {
  }

  /** The reply lists the decent records among the first m of the order: all of them, or the limit is reached. */
  ghost predicate ReadsOff(t: Book, reply: seq<Address>, size: nat, m: nat, now: int)
  {
    && m <= |t.random| == size
    && (forall p :: 0 <= p < m ==> t.random[p] in t.info)
    && reply == Decent(t.info, t.random[..m], now)
    && |reply| <= GetAddrLimit(size)
    && (m == size || |reply| == GetAddrLimit(size))
  }

  /** GetAddr only reorders: every index survives, the reply never exceeds the limit, and it lists
      the decent records of the leading part of the new order; short of the limit, of all of it. */
  lemma GetAddrKeeps(s: Book, draw: nat -> nat, now: int) returns (m: nat)
    requires Consistent(s)
    ensures Consistent(GetAddr(s, draw, now).0) && SameButOrder(s.info, GetAddr(s, draw, now).0.info)
    ensures GetAddr(s, draw, now).0.info.Keys == s.info.Keys
    ensures ReadsOff(GetAddr(s, draw, now).0, GetAddr(s, draw, now).1, |s.info|, m, now)
  {
    hide NewSlots, RefCounts, TriedSlots, AddrIndex, IdsBelow, Placed, NewIds, TriedIds, Gather, Decent;
    m := GatherReads(s, draw, 0, 0, GetAddrLimit(|s.random|), now);
    var r := GetAddr(s, draw, now);
    ReorderKeeps(s, r.0, {});
    RandomSize(s.info, s.random);
    assert r.0.random[0..m] == r.0.random[..m];
  }

  /** The random order has one position per record. */
  lemma RandomSize(info: Infos, random: seq<int>)
    requires RandomIndex(info, random)
    ensures |random| == |info|
  {
    var ids := set p | 0 <= p < |random| :: random[p];
    forall n | n in info ensures n in ids {
      assert random[info[n].randomPos] == n;
    }
    assert ids == info.Keys;
    DistinctSize(random);
  }

  lemma {:induction false} DistinctSize(xs: seq<int>)
    requires forall p, q :: 0 <= p < q < |xs| ==> xs[p] != xs[q]
    ensures |set p | 0 <= p < |xs| :: xs[p]| == |xs|
  {
    if |xs| > 0 {
      var k := |xs| - 1;
      var front := xs[..k];
      DistinctSize(front);
      assert (set p | 0 <= p < |xs| :: xs[p]) == (set p | 0 <= p < |front| :: front[p]) + {xs[k]};
    }
  }

  // ----- runs -----

  datatype Op =
    | OpAdd(address: Address, source: NetAddr, timePenalty: int, routable: bool, coin: nat, now: int)
    | OpGood(service: Service, time: int)
    | OpAttempt(service: Service, countFailure: bool, time: int)
    | OpConnected(service: Service, time: int)
    | OpSetServices(service: Service, services: ServiceFlags)
    | OpGetAddr(draw: nat -> nat, now: int)

  function Step(s: Book, op: Op): Book
    requires Consistent(s)
  {
    match op
    case OpAdd(address, source, penalty, routable, coin, now) => Add(s, address, source, penalty, routable, coin, now).0
    case OpGood(service, time) => Good(s, service, time)
    case OpAttempt(service, countFailure, time) => Attempt(s, service, countFailure, time)
    case OpConnected(service, time) => Connected(s, service, time)
    case OpSetServices(service, services) => SetServices(s, service, services)
    case OpGetAddr(draw, now) => GetAddr(s, draw, now).0
  }

  /** Calls that report a success or an attempt carry a positive time. */
  predicate Timely(op: Op)
  {
    (op.OpGood? ==> op.time > 0) && (op.OpAttempt? ==> op.time > 0)
  }

  lemma StepKeeps(s: Book, op: Op)
    requires Consistent(s)
    ensures Consistent(Step(s, op))
    ensures Times(s.info) && Timely(op) ==> Times(Step(s, op).info)
  {
    hide Consistent, Good, Add, Attempt, Connected, SetServices, GetAddr;
    match op
    case OpAdd(address, source, penalty, routable, coin, now) =>
      AddKeeps(s, address, source, penalty, routable, coin, now);
      if Times(s.info) { AddTimes(s, address, source, penalty, routable, coin, now); }
    case OpGood(service, time) =>
      GoodKeeps(s, service, time);
      if Times(s.info) { GoodTimes(s, service, time); }
    case OpAttempt(service, countFailure, time) =>
      StatisticsKeep(s, service, countFailure, time, {});
    case OpConnected(service, time) =>
      StatisticsKeep(s, service, false, time, {});
    case OpSetServices(service, services) =>
      StatisticsKeep(s, service, false, 0, services);
    case OpGetAddr(draw, now) =>
      var _ := GetAddrKeeps(s, draw, now);
  }

  function Run(s: Book, ops: seq<Op>): (t: Book)
    requires Consistent(s)
    ensures Consistent(t)
    decreases |ops|
  {
    hide Consistent, Step, Times;
    if ops == [] then s else
      StepKeeps(s, ops[0]);
      Run(Step(s, ops[0]), ops[1..])
  }

  /** Every run from a new manager keeps the five indexes and the counters in agreement; if the reported
      times are positive, the recorded times are in order as well. */
  lemma {:induction false} RunKeeps(s: Book, ops: seq<Op>)
    requires Valid(s) && forall k :: 0 <= k < |ops| ==> Timely(ops[k])
    ensures Valid(Run(s, ops))
    decreases |ops|
  {
    hide Consistent, Step, Times;
    if ops != [] {
      StepKeeps(s, ops[0]);
      RunKeeps(Step(s, ops[0]), ops[1..]);
    }
  }
}
