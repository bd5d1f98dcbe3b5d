/** The stochastic address manager: one record per known address, five redundant
    indexes over those records, and the invariant that the debug routine Check_
    spells out, proved for every operation. */

/** Records, the keyed bucket placement, and the index predicates over plain values. */
module AddrBook {

  const TRIED_BUCKET_COUNT: nat := 256
  const NEW_BUCKET_COUNT: nat := 1024
  const BUCKET_SIZE: nat := 64
  const TRIED_BUCKETS_PER_GROUP: nat := 8
  const NEW_BUCKETS_PER_SOURCE_GROUP: nat := 64
  const NEW_BUCKETS_PER_ADDRESS: nat := 8
  const HORIZON_DAYS: nat := 30
  const RETRIES: nat := 3
  const MAX_FAILURES: nat := 10
  const MIN_FAIL_DAYS: nat := 7
  const GETADDR_MAX_PCT: nat := 23
  const GETADDR_MAX: nat := 2500

  const EMPTY: int := -1

  /** A network address without a port. */
  datatype NetAddr = NetAddr(ip: nat)

  /** A network address with a port. */
  datatype Service = Service(net: NetAddr, port: nat)

  /** The service bits that are set. */
  type ServiceFlags = set<nat>

  /** An address as announced by a peer: who, which services, and when it was last seen. */
  datatype Address = Address(service: Service, services: ServiceFlags, time: nat)

  /** What the manager remembers about one address. */
  datatype AddrInfo = AddrInfo(
    address: Address,
    source: NetAddr,
    lastTry: int,
    lastCountAttempt: int,
    lastSuccess: int,
    attempts: int,
    refCount: int,
    inTried: bool,
    randomPos: int)
  {
    function Service(): Service { address.service }
    function Net(): NetAddr { address.service.net }

    /** Bad enough that the slot may be reused. */
    predicate IsTerrible(now: int)
    {
      if lastTry != 0 && lastTry >= now - 60 then false
      else
        || address.time > now + 10 * 60
        || address.time == 0
        || now - address.time > HORIZON_DAYS * 24 * 60 * 60
        || (lastSuccess == 0 && attempts >= RETRIES)
        || (now - lastSuccess > MIN_FAIL_DAYS * 24 * 60 * 60 && attempts >= MAX_FAILURES)
    }
  }

  /** A record is decent if it was tried within the last minute, or was seen within the last month, not too far in
      the future, and has not failed three times without any success, nor ten times without one in a week. */
  lemma DecentIff(r: AddrInfo, now: int)
    ensures !r.IsTerrible(now) <==>
      || (r.lastTry != 0 && now - r.lastTry <= 60)
      || (&& 0 < r.address.time && now - 30 * 86400 <= r.address.time <= now + 600
          && (r.attempts < 3 || r.lastSuccess != 0)
          && (r.attempts < 10 || now - r.lastSuccess <= 7 * 86400))
  {
  }

  /** The hash functions selected by one secret key, and the address grouping. */
  datatype Hashing = Hashing(
    group: NetAddr -> nat,
    triedFull: Service -> nat,
    triedGroup: (nat, nat) -> nat,
    newPair: (nat, nat) -> nat,
    newSource: (nat, nat) -> nat,
    position: (bool, nat, Service) -> nat)
  {
    function TriedBucket(s: Service): nat
    {
      triedGroup(group(s.net), triedFull(s) % TRIED_BUCKETS_PER_GROUP) % TRIED_BUCKET_COUNT
    }

    function NewBucket(s: Service, source: NetAddr): nat
    {
      newSource(group(source), newPair(group(s.net), group(source)) % NEW_BUCKETS_PER_SOURCE_GROUP) % NEW_BUCKET_COUNT
    }

    function NewPos(s: Service, bucket: nat): nat { position(true, bucket, s) % BUCKET_SIZE }

    function TriedPos(s: Service): nat { position(false, TriedBucket(s), s) % BUCKET_SIZE }
  }

  type Infos = map<int, AddrInfo>
  type Table = seq<seq<int>>

  predicate Shape(t: Table, buckets: nat)
  {
    |t| == buckets && forall b :: 0 <= b < buckets ==> |t[b]| == BUCKET_SIZE
  }

  function SetCell(t: Table, b: nat, i: nat, v: int): (r: Table)
    requires b < |t| && i < |t[b]|
    ensures |r| == |t| && forall c :: 0 <= c < |t| ==> |r[c]| == |t[c]|
    ensures forall c, j :: 0 <= c < |t| && 0 <= j < |t[c]| ==>
              r[c][j] == if c == b && j == i then v else t[c][j]
  {
    t[b := t[b][i := v]]
  }

  function EmptyTable(buckets: nat): (t: Table)
    ensures Shape(t, buckets)
    ensures forall b, i :: 0 <= b < buckets && 0 <= i < BUCKET_SIZE ==> t[b][i] == EMPTY
  {
    seq(buckets, _ => seq(BUCKET_SIZE, _ => EMPTY))
  }

  function NewIds(info: Infos): set<int> { set n | n in info && !info[n].inTried }

  function TriedIds(info: Infos): set<int> { set n | n in info && info[n].inTried }

  /** The buckets of the new table that refer to record n, whose service is s. */
  function RefBuckets(h: Hashing, table: Table, s: Service, n: int): set<nat>
    requires Shape(table, NEW_BUCKET_COUNT)
  {
    set b: nat | 0 <= b < NEW_BUCKET_COUNT && table[b][h.NewPos(s, b)] == n
  }

  ghost predicate IdsBelow(info: Infos, idCount: int)
  {
    idCount >= 0 && forall n :: n in info ==> 0 <= n < idCount
  }

  /** Ids and addresses are inverse indexes of each other. */
  ghost predicate AddrIndex(info: Infos, addr: map<NetAddr, int>)
  {
    && (forall n :: n in info ==> info[n].Net() in addr && addr[info[n].Net()] == n)
    && (forall a :: a in addr ==> addr[a] in info && info[addr[a]].Net() == a)
  }

  /** The random order lists every id once, and every record knows its own place. */
  ghost predicate RandomIndex(info: Infos, random: seq<int>)
  {
    && (forall n :: n in info ==> 0 <= info[n].randomPos < |random| && random[info[n].randomPos] == n)
    && (forall p :: 0 <= p < |random| ==> random[p] in info && info[random[p]].randomPos == p)
  }

  /** Every filled cell of the new table holds a record that belongs in that position. */
  ghost predicate NewSlots(h: Hashing, info: Infos, table: Table)
  {
    && Shape(table, NEW_BUCKET_COUNT)
    && forall b, i :: 0 <= b < NEW_BUCKET_COUNT && 0 <= i < BUCKET_SIZE && table[b][i] != EMPTY ==>
         && table[b][i] in info
         && !info[table[b][i]].inTried
         && h.NewPos(info[table[b][i]].Service(), b) == i
  }

  /** Reference counts count cells of the new table, and never exceed eight. */
  ghost predicate RefCounts(h: Hashing, info: Infos, table: Table)
    requires Shape(table, NEW_BUCKET_COUNT)
  {
    forall n :: n in info ==>
      && info[n].refCount == |RefBuckets(h, table, info[n].Service(), n)|
      && info[n].refCount <= NEW_BUCKETS_PER_ADDRESS
  }

  /** The tried table and the tried records are inverse indexes of each other. */
  ghost predicate TriedSlots(h: Hashing, info: Infos, tried: Table)
  {
    && Shape(tried, TRIED_BUCKET_COUNT)
    && (forall b, i :: 0 <= b < TRIED_BUCKET_COUNT && 0 <= i < BUCKET_SIZE && tried[b][i] != EMPTY ==>
          && tried[b][i] in info
          && info[tried[b][i]].inTried
          && h.TriedBucket(info[tried[b][i]].Service()) == b
          && h.TriedPos(info[tried[b][i]].Service()) == i)
    && (forall n :: n in info && info[n].inTried ==>
          tried[h.TriedBucket(info[n].Service())][h.TriedPos(info[n].Service())] == n)
  }

  /** Every record is tried or referenced, except those an operation is still placing. */
  ghost predicate Placed(info: Infos, loose: set<int>)
  {
    forall n :: n in info ==>
      if n in loose then !info[n].inTried else info[n].inTried || info[n].refCount >= 1
  }

  /** Times are non-negative, and a tried record has had a success. */
  ghost predicate Times(info: Infos)
  {
    forall n :: n in info ==>
      && info[n].lastTry >= 0
      && info[n].lastSuccess >= 0
      && (info[n].inTried ==> info[n].lastSuccess != 0)
  }

  /** The same records, possibly standing elsewhere in the random order. */
  ghost predicate SameButOrder(before: Infos, after: Infos)
  {
    && after.Keys <= before.Keys
    && forall n :: n in after ==> after[n] == before[n].(randomPos := after[n].randomPos)
  }

  /** The same record contents: only bookkeeping about placement may differ. */
  ghost predicate SameContents(before: Infos, after: Infos)
  {
    && after.Keys <= before.Keys
    && forall n :: n in after ==>
         after[n] == before[n].(randomPos := after[n].randomPos, refCount := after[n].refCount, inTried :=
             after[n].inTried)
  }

  // ----- changes of one cell of the new table -----

  lemma ClearCellRefs(h: Hashing, info: Infos, table: Table, b: nat, i: nat)
    requires NewSlots(h, info, table) && b < NEW_BUCKET_COUNT && i < BUCKET_SIZE && table[b][i] != EMPTY
    ensures var d := table[b][i];
            var after := SetCell(table, b, i, EMPTY);
            && b in RefBuckets(h, table, info[d].Service(), d)
            && RefBuckets(h, after, info[d].Service(), d) == RefBuckets(h, table, info[d].Service(), d) - {b}
            && |RefBuckets(h, after, info[d].Service(), d)| == |RefBuckets(h, table, info[d].Service(), d)| - 1
            && forall n :: n in info && n != d && n != EMPTY ==>
                 RefBuckets(h, after, info[n].Service(), n) == RefBuckets(h, table, info[n].Service(), n)
  {
    var d := table[b][i];
    var after := SetCell(table, b, i, EMPTY);
    assert RefBuckets(h, after, info[d].Service(), d) == RefBuckets(h, table, info[d].Service(), d) - {b};
  }

  lemma FillCellRefs(h: Hashing, info: Infos, table: Table, b: nat, n: int)
    requires Shape(table, NEW_BUCKET_COUNT) && n in info && n != EMPTY && b < NEW_BUCKET_COUNT
    requires table[b][h.NewPos(info[n].Service(), b)] == EMPTY && EMPTY !in info
    ensures var after := SetCell(table, b, h.NewPos(info[n].Service(), b), n);
            && |RefBuckets(h, after, info[n].Service(), n)| == |RefBuckets(h, table, info[n].Service(), n)| + 1
            && forall m :: m in info && m != n ==>
                 RefBuckets(h, after, info[m].Service(), m) == RefBuckets(h, table, info[m].Service(), m)
  {
    var i := h.NewPos(info[n].Service(), b);
    var after := SetCell(table, b, i, n);
    assert RefBuckets(h, after, info[n].Service(), n) == RefBuckets(h, table, info[n].Service(), n) + {b};
  }

  /** A record that is tried is referenced by no cell of the new table. */
  lemma TriedUnreferenced(h: Hashing, info: Infos, table: Table, n: int)
    requires NewSlots(h, info, table) && n in info && info[n].inTried && n != EMPTY
    ensures RefBuckets(h, table, info[n].Service(), n) == {}
  {
  }

  /** A record whose count is zero occurs in no cell of the new table. */
  lemma Unreferenced(h: Hashing, info: Infos, table: Table, n: int)
    requires NewSlots(h, info, table) && RefCounts(h, info, table) && n in info && n != EMPTY && info[n].refCount == 0
    ensures forall b, i :: 0 <= b < NEW_BUCKET_COUNT && 0 <= i < BUCKET_SIZE ==> table[b][i] != n
  {
    assert RefBuckets(h, table, info[n].Service(), n) == {};
    forall b: nat, i: nat | b < NEW_BUCKET_COUNT && i < BUCKET_SIZE ensures table[b][i] != n {
      assert b !in RefBuckets(h, table, info[n].Service(), n);
    }
  }

  /** The same records under the same ids at the same places: only statistics differ. */
  ghost predicate SamePlaces(before: Infos, after: Infos)
  {
    && after.Keys == before.Keys
    && forall n :: n in after ==>
         after[n].Service() == before[n].Service() && after[n].randomPos == before[n].randomPos
  }

  lemma SamePlacesKeeps(before: Infos, after: Infos, addr: map<NetAddr, int>, random: seq<int>, idCount: int)
    requires SamePlaces(before, after)
    requires IdsBelow(before, idCount) && AddrIndex(before, addr) && RandomIndex(before, random)
    ensures IdsBelow(after, idCount) && AddrIndex(after, addr) && RandomIndex(after, random)
  {
    assert forall n :: n in after ==> n in before && after[n].Net() == before[n].Net();
    assert forall a :: a in addr ==> addr[a] in before && addr[a] in after;
    assert forall p :: 0 <= p < |random| ==> random[p] in before && random[p] in after;
  }

  /** Statistics that do not concern placement do not disturb the tables. */
  lemma SameStatusKeeps(h: Hashing, before: Infos, after: Infos, table: Table, tried: Table, loose: set<int>)
    requires SamePlaces(before, after)
    requires forall n :: n in after ==> after[n].inTried == before[n].inTried && after[n].refCount == before[n].refCount
    requires NewSlots(h, before, table) && RefCounts(h, before, table) && TriedSlots(h, before, tried)
    requires Placed(before, loose)
    ensures NewSlots(h, after, table) && RefCounts(h, after, table) && TriedSlots(h, after, tried)
    ensures Placed(after, loose)
    ensures NewIds(after) == NewIds(before) && TriedIds(after) == TriedIds(before)
  {
    assert forall n :: n in before <==> n in after;
    forall n | n in after
      ensures |RefBuckets(h, table, after[n].Service(), n)| == |RefBuckets(h, table, before[n].Service(), n)|
    {
      assert after[n].Service() == before[n].Service();
    }
  }

  /** Clearing a cell and lowering the count of the record it held. */
  lemma ReleaseKeeps(h: Hashing, before: Infos, table: Table, tried: Table, b: nat, i: nat)
    requires b < NEW_BUCKET_COUNT && i < BUCKET_SIZE
    requires NewSlots(h, before, table) && RefCounts(h, before, table) && TriedSlots(h, before, tried)
    requires table[b][i] != EMPTY && EMPTY !in before
    ensures var d := table[b][i];
            var after := before[d := before[d].(refCount := before[d].refCount - 1)];
            var cleared := SetCell(table, b, i, EMPTY);
            && before[d].refCount > 0
            && SamePlaces(before, after)
            && NewSlots(h, after, cleared) && RefCounts(h, after, cleared) && TriedSlots(h, after, tried)
            && NewIds(after) == NewIds(before) && TriedIds(after) == TriedIds(before)
  {
    ClearCellRefs(h, before, table, b, i);
  }

  /** Filling the empty cell of a record's bucket and raising its count. */
  lemma ReferKeeps(h: Hashing, before: Infos, table: Table, tried: Table, b: nat, n: int)
    requires n in before && EMPTY !in before && !before[n].inTried && b < NEW_BUCKET_COUNT
    requires NewSlots(h, before, table) && RefCounts(h, before, table) && TriedSlots(h, before, tried)
    requires table[b][h.NewPos(before[n].Service(), b)] == EMPTY && before[n].refCount < NEW_BUCKETS_PER_ADDRESS
    ensures var after := before[n := before[n].(refCount := before[n].refCount + 1)];
            var filled := SetCell(table, b, h.NewPos(before[n].Service(), b), n);
            && SamePlaces(before, after)
            && NewSlots(h, after, filled) && RefCounts(h, after, filled) && TriedSlots(h, after, tried)
            && NewIds(after) == NewIds(before) && TriedIds(after) == TriedIds(before)
  {
    FillCellRefs(h, before, table, b, n);
  }

  /** Entering an unreferenced record into its free tried cell. */
  lemma EnterTriedKeeps(h: Hashing, before: Infos, table: Table, tried: Table, n: int)
    requires n in before && EMPTY !in before && !before[n].inTried && before[n].refCount == 0
    requires NewSlots(h, before, table) && RefCounts(h, before, table) && TriedSlots(h, before, tried)
    requires tried[h.TriedBucket(before[n].Service())][h.TriedPos(before[n].Service())] == EMPTY
    ensures var after := before[n := before[n].(inTried := true)];
            var entered := SetCell(tried, h.TriedBucket(before[n].Service()), h.TriedPos(before[n].Service()), n);
            && SamePlaces(before, after)
            && NewSlots(h, after, table) && RefCounts(h, after, table) && TriedSlots(h, after, entered)
            && NewIds(after) == NewIds(before) - {n} && TriedIds(after) == TriedIds(before) + {n}
  {
    Unreferenced(h, before, table, n);
  }

  /** Taking a record out of the tried table. */
  lemma LeaveTriedKeeps(h: Hashing, before: Infos, table: Table, tried: Table, b: nat, i: nat)
    requires b < TRIED_BUCKET_COUNT && i < BUCKET_SIZE && EMPTY !in before
    requires NewSlots(h, before, table) && RefCounts(h, before, table) && TriedSlots(h, before, tried)
    requires tried[b][i] != EMPTY
    ensures var d := tried[b][i];
            var after := before[d := before[d].(inTried := false)];
            var left := SetCell(tried, b, i, EMPTY);
            && SamePlaces(before, after)
            && NewSlots(h, after, table) && RefCounts(h, after, table) && TriedSlots(h, after, left)
            && NewIds(after) == NewIds(before) + {d} && TriedIds(after) == TriedIds(before) - {d}
            && before[d].refCount == 0
  {
    TriedUnreferenced(h, before, table, tried[b][i]);
  }

  /** The tables do not mind a record without references being forgotten. */
  lemma ForgetKeepsTables(h: Hashing, before: Infos, after: Infos, table: Table, tried: Table, n: int)
    requires n in before && EMPTY !in before && !before[n].inTried && before[n].refCount == 0
    requires SameButOrder(before, after) && after.Keys == before.Keys - {n}
    requires NewSlots(h, before, table) && RefCounts(h, before, table) && TriedSlots(h, before, tried)
    ensures NewSlots(h, after, table) && RefCounts(h, after, table) && TriedSlots(h, after, tried)
  {
    Unreferenced(h, before, table, n);
  }

  lemma ForgetIds(before: Infos, after: Infos, n: int)
    requires n in before && SameButOrder(before, after) && after.Keys == before.Keys - {n} && !before[n].inTried
    ensures NewIds(after) == NewIds(before) - {n} && TriedIds(after) == TriedIds(before)
    ensures |NewIds(after)| == |NewIds(before)| - 1
  {
    assert forall m :: m in after <==> m in before && m != n;
    assert NewIds(after) == NewIds(before) - {n};
    assert n in NewIds(before);
  }

  lemma ForgetKeepsPlaced(before: Infos, after: Infos, loose: set<int>, idCount: int, n: int)
    requires n in before && SameButOrder(before, after) && after.Keys == before.Keys - {n}
    requires IdsBelow(before, idCount) && Placed(before, loose)
    ensures IdsBelow(after, idCount) && Placed(after, loose - {n})
  {
    assert forall m :: m in after <==> m in before && m != n;
  }

  lemma ForgetKeepsAddrIndex(before: Infos, after: Infos, addr: map<NetAddr, int>, n: int)
    requires n in before && SameButOrder(before, after) && after.Keys == before.Keys - {n}
    requires AddrIndex(before, addr)
    ensures AddrIndex(after, addr - {before[n].Net()})
  {
  }

  /** The tried buckets within reach of one group of addresses. */
  function TriedReach(h: Hashing, g: nat): seq<nat>
  {
    seq(TRIED_BUCKETS_PER_GROUP, (k: nat) => h.triedGroup(g, k) % TRIED_BUCKET_COUNT)
  }

  /** The new buckets within reach of one group of sources. */
  function NewReach(h: Hashing, g: nat): seq<nat>
  {
    seq(NEW_BUCKETS_PER_SOURCE_GROUP, (k: nat) => h.newSource(g, k) % NEW_BUCKET_COUNT)
  }

  /** However many addresses of one group are tried, they fill at most eight buckets. */
  lemma TriedBucketsPerGroup(h: Hashing, g: nat, services: set<Service>)
    requires forall s :: s in services ==> h.group(s.net) == g
    ensures |set s | s in services :: h.TriedBucket(s)| <= TRIED_BUCKETS_PER_GROUP
  {
    var buckets := set s | s in services :: h.TriedBucket(s);
    forall x | x in buckets ensures x in TriedReach(h, g) {
      var s :| s in services && x == h.TriedBucket(s);
      assert x == TriedReach(h, g)[h.triedFull(s) % TRIED_BUCKETS_PER_GROUP];
    }
    DistinctBound(TriedReach(h, g), buckets);
  }

  /** However many addresses one group of sources announces, they land in at most 64 new buckets. */
  lemma NewBucketsPerSourceGroup(h: Hashing, g: nat, announced: set<(Service, NetAddr)>)
    requires forall a :: a in announced ==> h.group(a.1) == g
    ensures |set a | a in announced :: h.NewBucket(a.0, a.1)| <= NEW_BUCKETS_PER_SOURCE_GROUP
  {
    var buckets := set a | a in announced :: h.NewBucket(a.0, a.1);
    forall x | x in buckets ensures x in NewReach(h, g) {
      var a :| a in announced && x == h.NewBucket(a.0, a.1);
      assert x == NewReach(h, g)[h.newPair(h.group(a.0.net), g) % NEW_BUCKETS_PER_SOURCE_GROUP];
    }
    DistinctBound(NewReach(h, g), buckets);
  }

  lemma {:induction false} DistinctBound(xs: seq<nat>, distinct: set<nat>)
    requires forall x :: x in distinct ==> x in xs
    ensures |distinct| <= |xs|
  {
    if xs == [] {
      assert distinct == {};
    } else {
      DistinctBound(xs[1..], distinct - {xs[0]});
      assert distinct <= (distinct - {xs[0]}) + {xs[0]};
    }
  }
}
