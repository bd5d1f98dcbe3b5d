/** What the manager remembers about an address, told from the history of calls alone. */
module AddrHistory {
  import opened AddrBook
  import opened AddrSteps
  import opened AddrRuns

  /** What is remembered about an address, apart from where its record stands. */
  function Facts(r: AddrInfo): AddrInfo { r.(refCount := 0, inTried := false, randomPos := 0) }

  // ----- one call -----

  function Penalty(op: Op): int
    requires op.OpAdd?
  {
    if op.address.service.net == op.source then 0 else op.timePenalty
  }

  /** The record after a call, given the time of the last success of anyone. */
  function Heard(r: AddrInfo, op: Op, lastGood: int): AddrInfo
  {
    match op
    case OpAdd(address, _, _, routable, _, now) =>
      if routable && address.service.net == r.Net() then Refreshed(r, address, Penalty(op), now) else r
    case OpGood(service, time) =>
      if service == r.Service() then r.(lastSuccess := time, lastTry := time, attempts := 0) else r
    case OpAttempt(service, countFailure, time) =>
      if service != r.Service() then r
      else if countFailure && r.lastCountAttempt < lastGood then
        r.(lastTry := time, lastCountAttempt := time, attempts := r.attempts + 1)
      else r.(lastTry := time)
    case OpConnected(service, time) =>
      if service == r.Service() && time - r.address.time > 20 * 60
      then r.(address := r.address.(time := Uint32(time))) else r
    case OpSetServices(service, services) =>
      if service == r.Service() then r.(address := r.address.(services := services)) else r
    case OpGetAddr(_, _) => r
  }

  /** A record as it is first entered. */
  function Newborn(op: Op): AddrInfo
    requires op.OpAdd?
  {
    AddrInfo(op.address.(time := Uint32(Max(0, op.address.time - Penalty(op)))), op.source, 0, 0, 0, 0, 0, false, 0)
  }

  lemma KnowsOwn(s: Book, n: int, service: Service)
    requires AddrIndex(s.info, s.addr) && n in s.info
    ensures Knows(s, service) ==> s.addr[service.net] in s.info
    ensures s.info[n].Service() == service <==> Knows(s, service) && s.addr[service.net] == n
    ensures s.info[n].Net() == service.net <==> service.net in s.addr && s.addr[service.net] == n
  {
  }

  lemma SameFacts(before: Infos, after: Infos, n: int)
    requires SameContents(before, after) && n in after
    ensures n in before && Facts(after[n]) == Facts(before[n])
  {
  }

  /** Placing a record changes what is remembered about nobody. */
  lemma PlaceFacts(s: Book, m: int, source: NetAddr, now: int)
    requires Structure(s, {m}) && m in s.info
    ensures var t := Place(s, m, source, now);
      t.idCount == s.idCount && t.lastGood == s.lastGood && SameContents(s.info, t.info)
  {
    hide TriedSlots, AddrIndex, IdsBelow, NewIds, TriedIds, ClearNew, Forget, RefCounts, RandomIndex;
    StructureParts(s, {m});
    PlaceCarries(s, m, source, now);
    var b := s.hash.NewBucket(s.info[m].Service(), source);
    var i := s.hash.NewPos(s.info[m].Service(), b);
    var d := s.table[b][i];
    if d != m && (d == EMPTY || s.info[d].IsTerrible(now) || (s.info[d].refCount > 1 && s.info[m].refCount == 0)) {
      ClearNewKeeps(s, b, i, {m});
      ClearNewEffect(s, b, i);
    } else if d != m && s.info[m].refCount == 0 {
      ForgetKeepsRandom(s, m);
    }
  }

  /** A call changes what is remembered about a record as its history says, for the record it concerns and
      for every other one, and nothing else about the last success and the ids. */
  lemma StepHeard(s: Book, op: Op, n: int)
    requires Consistent(s) && n in Step(s, op).info
    ensures Consistent(Step(s, op)) && s.idCount <= Step(s, op).idCount
    ensures Step(s, op).lastGood == if op.OpGood? then op.time else s.lastGood
    ensures n in s.info ==> Facts(Step(s, op).info[n]) == Heard(Facts(s.info[n]), op, s.lastGood)
    ensures n !in s.info ==> op.OpAdd? && op.routable && n >= s.idCount && Facts(Step(s, op).info[n]) == Newborn(op)
  {
    hide Consistent, Good, Add, Attempt, Connected, SetServices, GetAddr, Refreshed;
    StepKeeps(s, op);
    match op
    case OpAdd(address, source, penalty, routable, coin, now) => AddHeard(s, op, n);
    case OpGood(service, time) => GoodHeard(s, service, time, n);
    case OpAttempt(service, countFailure, time) => StatisticsHeard(s, op, n);
    case OpConnected(service, time) => StatisticsHeard(s, op, n);
    case OpSetServices(service, services) => StatisticsHeard(s, op, n);
    case OpGetAddr(draw, now) => GetAddrHeard(s, draw, now, n);
  }

  /** The calls that only keep statistics change the record they are about and nothing else. */
  lemma StatisticsHeard(s: Book, op: Op, n: int)
    requires Consistent(s) && (op.OpAttempt? || op.OpConnected? || op.OpSetServices?)
    ensures var t := Step(s, op);
      && t == s.(info := t.info) && t.info.Keys == s.info.Keys
      && (n in s.info ==> t.info[n] == Heard(s.info[n], op, s.lastGood))
      && (n in s.info ==> Facts(t.info[n]) == Heard(Facts(s.info[n]), op, s.lastGood))
  {
    hide NewSlots, RefCounts, TriedSlots, RandomIndex, IdsBelow, Placed, NewIds, TriedIds, Add, Good, GetAddr, Uint32;
    hide AddrIndex;
    if n in s.info { KnowsOwn(s, n, op.service); }
  }

  lemma GoodHeard(s: Book, service: Service, time: int, n: int)
    requires Consistent(s) && n in Good(s, service, time).info
    ensures var t := Good(s, service, time);
      && t.idCount == s.idCount && t.lastGood == time && n in s.info
      && Facts(t.info[n]) == Heard(Facts(s.info[n]), OpGood(service, time), s.lastGood)
  {
    hide NewSlots, RefCounts, TriedSlots, RandomIndex, IdsBelow, Placed, NewIds, TriedIds, MakeTried, AddrIndex;
    if Knows(s, service) {
      var m := s.addr[service.net];
      var record := s.info[m].(lastSuccess := time, lastTry := time, attempts := 0);
      var s2 := Update(s.(lastGood := time), m, record);
      UpdateKeeps(s.(lastGood := time), m, record);
      if !record.inTried {
        MakeTriedKeeps(s2, m);
        MakeTriedMoves(s2, m);
        SameFacts(s2.info, MakeTried(s2, m).info, n);
      }
      KnowsOwn(s, n, service);
    } else if n in s.info {
      KnowsOwn(s, n, service);
    }
  }

  lemma AddHeard(s: Book, op: Op, n: int)
    requires Consistent(s) && op.OpAdd? && n in Step(s, op).info
    ensures var t := Step(s, op);
      && s.idCount <= t.idCount && t.lastGood == s.lastGood
      && (n in s.info ==> Facts(t.info[n]) == Heard(Facts(s.info[n]), op, s.lastGood))
      && (n !in s.info ==> op.routable && n >= s.idCount && Facts(t.info[n]) == Newborn(op))
  {
    hide NewSlots, RefCounts, TriedSlots, RandomIndex, IdsBelow, Placed, NewIds, TriedIds, Place, AddrIndex;
    hide Refreshed, Max, Uint32, Welcome;
    var address, source, now := op.address, op.source, op.now;
    if n in s.info { KnowsOwn(s, n, address.service); }
    if op.routable && address.service.net in s.addr {
      var m := s.addr[address.service.net];
      IndexedKnown(s, address.service.net);
      var record := Refreshed(s.info[m], address, Penalty(op), now);
      RefreshedFacts(s.info[m], address, Penalty(op), now);
      UpdateKeeps(s, m, record);
      var t := Update(s, m, record);
      if Deserves(record, address, op.coin) {
        NowLoose(t, m);
        PlaceFacts(t, m, source, now);
        SameFacts(t.info, Place(t, m, source, now).info, n);
      }
    } else if op.routable {
      WelcomeKeeps(s, address, source, Penalty(op));
      var u := Welcome(s, address, source, Penalty(op));
      WelcomeNewborn(s, op);
      PlaceFacts(u, s.idCount, source, now);
      SameFacts(u.info, Place(u, s.idCount, source, now).info, n);
    }
  }

  lemma IndexedKnown(s: Book, net: NetAddr)
    requires AddrIndex(s.info, s.addr) && net in s.addr
    ensures s.addr[net] in s.info && s.info[s.addr[net]].Net() == net
  {
  }

  lemma RefreshedFacts(r: AddrInfo, address: Address, penalty: int, now: int)
    ensures Facts(Refreshed(r, address, penalty, now)) == Refreshed(Facts(r), address, penalty, now)
  {
    hide Max, Uint32;
  }

  lemma WelcomeNewborn(s: Book, op: Op)
    requires op.OpAdd?
    ensures var u := Welcome(s, op.address, op.source, Penalty(op));
      && u.idCount == s.idCount + 1 && u.lastGood == s.lastGood
      && s.idCount in u.info && Facts(u.info[s.idCount]) == Newborn(op)
  {
    hide Max, Uint32;
  }

  lemma GetAddrHeard(s: Book, draw: nat -> nat, now: int, n: int)
    requires Consistent(s) && n in GetAddr(s, draw, now).0.info
    ensures var t := GetAddr(s, draw, now).0;
      t.idCount == s.idCount && t.lastGood == s.lastGood && n in s.info && Facts(t.info[n]) == Facts(s.info[n])
  {
    hide NewSlots, RefCounts, TriedSlots, AddrIndex, IdsBelow, Placed, NewIds, TriedIds, Gather;
    var m := GatherReads(s, draw, 0, 0, GetAddrLimit(|s.random|), now);
  }

  // ----- whole histories -----

  /** The time of the last success of anyone. */
  function LastGood(ops: seq<Op>, before: int): int
  {
    if ops == [] then before
    else if ops[|ops| - 1].OpGood? then ops[|ops| - 1].time
    else LastGood(ops[..|ops| - 1], before)
  }

  function HeardAll(r: AddrInfo, ops: seq<Op>, lastGood: int): AddrInfo
  {
    if ops == [] then r else
      var k := |ops| - 1;
      Heard(HeardAll(r, ops[..k], lastGood), ops[k], LastGood(ops[..k], lastGood))
  }

  lemma {:induction false} RunSnoc(s: Book, ops: seq<Op>)
    requires Consistent(s) && ops != []
    ensures Run(s, ops) == Step(Run(s, ops[..|ops| - 1]), ops[|ops| - 1])
    decreases |ops|
  {
    hide Consistent, Step;
    var k := |ops| - 1;
    StepKeeps(s, ops[0]);
    if k > 0 {
      assert ops[..k][1..] == ops[1..][..k - 1];
      RunSnoc(Step(s, ops[0]), ops[1..]);
    } else {
      assert ops[..k] == [] && ops[1..] == [];
      assert Run(Step(s, ops[0]), ops[1..]) == Step(s, ops[0]);
    }
  }

  lemma BelowCount(s: Book, n: int)
    requires Consistent(s) && n in s.info
    ensures n < s.idCount
  {
    hide NewSlots, RefCounts, TriedSlots, AddrIndex, RandomIndex, Placed;
  }

  /** Whoever is remembered before and after a run has been remembered all along, and what is remembered is what
      the calls in between say. Ids are not given twice. */
  lemma {:induction false} RunHeard(s: Book, ops: seq<Op>, n: int)
    requires Consistent(s) && n < s.idCount
    ensures s.idCount <= Run(s, ops).idCount && Run(s, ops).lastGood == LastGood(ops, s.lastGood)
    ensures n in Run(s, ops).info ==>
      n in s.info && Facts(Run(s, ops).info[n]) == HeardAll(Facts(s.info[n]), ops, s.lastGood)
    decreases |ops|
  {
    hide Consistent, Step, Heard, Facts;
    if ops != [] {
      var k := |ops| - 1;
      var t := Run(s, ops[..k]);
      RunSnoc(s, ops);
      RunHeard(s, ops[..k], n);
      StepCounts(t, ops[k]);
      if n in Run(s, ops).info { StepHeard(t, ops[k], n); }
    }
  }

  lemma StepCounts(s: Book, op: Op)
    requires Consistent(s)
    ensures s.idCount <= Step(s, op).idCount && Step(s, op).lastGood == if op.OpGood? then op.time else s.lastGood
  {
    hide NewSlots, RefCounts, TriedSlots, RandomIndex, IdsBelow, Placed, NewIds, TriedIds, AddrIndex, MakeTried, Place;
    hide Welcome, Refreshed, Gather;
    match op
    case OpAdd(address, source, penalty, routable, coin, now) => AddCounts(s, op);
    case OpGood(service, time) =>
      if Knows(s, service) {
        var m := s.addr[service.net];
        var record := s.info[m].(lastSuccess := time, lastTry := time, attempts := 0);
        UpdateKeeps(s.(lastGood := time), m, record);
        if !record.inTried { MakeTriedKeeps(Update(s.(lastGood := time), m, record), m); }
      }
    case OpAttempt(_, _, _) =>
    case OpConnected(_, _) =>
    case OpSetServices(_, _) =>
    case OpGetAddr(draw, now) =>
      var _ := GatherReads(s, draw, 0, 0, GetAddrLimit(|s.random|), now);
  }

  lemma AddCounts(s: Book, op: Op)
    requires Consistent(s) && op.OpAdd?
    ensures s.idCount <= Step(s, op).idCount && Step(s, op).lastGood == s.lastGood
  {
    hide NewSlots, RefCounts, TriedSlots, RandomIndex, IdsBelow, Placed, NewIds, TriedIds, Place, AddrIndex;
    hide Refreshed, Welcome;
    var address, source, now := op.address, op.source, op.now;
    if op.routable && address.service.net in s.addr {
      var m := s.addr[address.service.net];
      IndexedKnown(s, address.service.net);
      var record := Refreshed(s.info[m], address, Penalty(op), now);
      UpdateKeeps(s, m, record);
      var t := Update(s, m, record);
      if Deserves(record, address, op.coin) {
        NowLoose(t, m);
        PlaceFacts(t, m, source, now);
      }
    } else if op.routable {
      WelcomeKeeps(s, address, source, Penalty(op));
      WelcomeNewborn(s, op);
      PlaceFacts(Welcome(s, address, source, Penalty(op)), s.idCount, source, now);
    }
  }

  /** Every record of a run from a new manager was entered by one call, and is what that call and the calls
      after it say. */
  lemma {:induction false} RunTold(hash: Hashing, ops: seq<Op>, n: int) returns (k: nat)
    requires Consistent(NewBook(hash)) && n in Run(NewBook(hash), ops).info
    ensures k < |ops| && ops[k].OpAdd? && ops[k].routable
    ensures Facts(Run(NewBook(hash), ops).info[n]) == HeardAll(Newborn(ops[k]), ops[k + 1..], LastGood(ops[..k], 1))
    decreases |ops|
  {
    hide Consistent, Step, Heard, Facts, Newborn;
    var last := |ops| - 1;
    assert ops != [];
    var s := Run(NewBook(hash), ops[..last]);
    RunSnoc(NewBook(hash), ops);
    StepHeard(s, ops[last], n);
    if n in s.info {
      k := RunTold(hash, ops[..last], n);
      var rest := ops[k + 1..];
      assert ops[..last][..k] == ops[..k] && ops[..last][k + 1..] == rest[..|rest| - 1];
      assert rest[|rest| - 1] == ops[last];
      RunGood(hash, ops[..last]);
      GoodSplit(ops[..last], k, 1);
    } else {
      k := last;
      assert ops[k + 1..] == [];
    }
  }

  lemma {:induction false} RunGood(hash: Hashing, ops: seq<Op>)
    requires Consistent(NewBook(hash))
    ensures Run(NewBook(hash), ops).lastGood == LastGood(ops, 1)
    decreases |ops|
  {
    hide Consistent, Step;
    if ops != [] {
      var k := |ops| - 1;
      RunSnoc(NewBook(hash), ops);
      RunGood(hash, ops[..k]);
      StepCounts(Run(NewBook(hash), ops[..k]), ops[k]);
    }
  }

  lemma {:induction false} GoodSplit(ops: seq<Op>, k: nat, before: int)
    requires k < |ops| && !ops[k].OpGood?
    ensures LastGood(ops, before) == LastGood(ops[k + 1..], LastGood(ops[..k], before))
    decreases |ops|
  {
    var last := |ops| - 1;
    var rest := ops[k + 1..];
    if k == last {
      assert rest == [];
    } else {
      assert rest[|rest| - 1] == ops[last] && rest[..|rest| - 1] == ops[..last][k + 1..];
      assert ops[..last][..k] == ops[..k];
      GoodSplit(ops[..last], k, before);
    }
  }

  // ----- what the history says -----

  /** The address, the port and the first source are kept. */
  lemma {:induction false} HeardKeeps(r: AddrInfo, ops: seq<Op>, lastGood: int)
    ensures var q := HeardAll(r, ops, lastGood);
      q.Service() == r.Service() && q.source == r.source && q.refCount == r.refCount && q.inTried == r.inTried
    decreases |ops|
  {
    if ops != [] { HeardKeeps(r, ops[..|ops| - 1], lastGood); }
  }

  predicate Tries(op: Op, x: Service) { (op.OpGood? || op.OpAttempt?) && op.service == x }

  predicate Succeeds(op: Op, x: Service) { op.OpGood? && op.service == x }

  /** The last try is the latest attempt or success, if there is any. */
  lemma {:induction false} LastTry(r: AddrInfo, ops: seq<Op>, lastGood: int, i: int)
    requires -1 <= i < |ops| && (i >= 0 ==> Tries(ops[i], r.Service()))
    requires forall j :: i < j < |ops| ==> !Tries(ops[j], r.Service())
    ensures HeardAll(r, ops, lastGood).lastTry == if i < 0 then r.lastTry else ops[i].time
    decreases |ops|
  {
    hide Uint32;
    if ops != [] {
      var front := ops[..|ops| - 1];
      HeardKeeps(r, front, lastGood);
      if i < |front| {
        assert forall j :: i < j < |front| ==> front[j] == ops[j];
        LastTry(r, front, lastGood, i);
        assert !Tries(ops[|ops| - 1], r.Service());
      }
    }
  }

  /** The last success is the latest success, if there is any. */
  lemma {:induction false} LastSuccess(r: AddrInfo, ops: seq<Op>, lastGood: int, i: int)
    requires -1 <= i < |ops| && (i >= 0 ==> Succeeds(ops[i], r.Service()))
    requires forall j :: i < j < |ops| ==> !Succeeds(ops[j], r.Service())
    ensures HeardAll(r, ops, lastGood).lastSuccess == if i < 0 then r.lastSuccess else ops[i].time
    decreases |ops|
  {
    hide Uint32;
    if ops != [] {
      var front := ops[..|ops| - 1];
      HeardKeeps(r, front, lastGood);
      if i < |front| {
        assert forall j :: i < j < |front| ==> front[j] == ops[j];
        LastSuccess(r, front, lastGood, i);
        assert !Succeeds(ops[|ops| - 1], r.Service());
      }
    }
  }

  // ----- failures are counted once between successes -----

  predicate CountedTry(op: Op, x: Service) { op.OpAttempt? && op.countFailure && op.service == x }

  /** No counted attempt on x since the last success of anyone; before the first one it is as at the start. */
  predicate Open(ops: seq<Op>, x: Service, atFirst: bool)
  {
    if ops == [] then atFirst
    else if ops[|ops| - 1].OpGood? then true
    else if CountedTry(ops[|ops| - 1], x) then false
    else Open(ops[..|ops| - 1], x, atFirst)
  }

  /** That is: after the latest counted attempt, if there is any, somebody had a success. */
  lemma {:induction false} OpenMeans(ops: seq<Op>, x: Service, atFirst: bool)
    ensures Open(ops, x, atFirst) <==>
      if exists j :: 0 <= j < |ops| && (ops[j].OpGood? || CountedTry(ops[j], x))
      then exists j :: 0 <= j < |ops| && ops[j].OpGood? && forall i :: j < i < |ops| ==> !CountedTry(ops[i], x)
      else atFirst
    decreases |ops|
  {
    if ops != [] {
      var k := |ops| - 1;
      var front := ops[..k];
      OpenMeans(front, x, atFirst);
      assert forall j :: 0 <= j < k ==> front[j] == ops[j];
    }
  }

  /** A counted attempt on x that is the first one since a success of anyone. */
  predicate FirstInRound(ops: seq<Op>, i: nat, x: Service, atFirst: bool)
    requires i < |ops|
  {
    CountedTry(ops[i], x) && Open(ops[..i], x, atFirst)
  }

  /** The rounds since the last success of x itself in which a counted attempt was made on it. */
  function Rounds(ops: seq<Op>, x: Service, atFirst: bool): set<nat>
  {
    set i: nat | i < |ops| && FirstInRound(ops, i, x, atFirst) && forall j :: i < j < |ops| ==> !Succeeds(ops[j], x)
  }

  /** Time goes on: a success of anyone is reported later than any counted attempt on x before it, and no
      attempt on x earlier than the last success of anyone. */
  ghost predicate TimeGoesOn(r: AddrInfo, ops: seq<Op>, lastGood: int)
  {
    && (forall i :: 0 <= i < |ops| && CountedTry(ops[i], r.Service()) ==> LastGood(ops[..i], lastGood) <= ops[i].time)
    && (forall i :: 0 <= i < |ops| && ops[i].OpGood? ==> r.lastCountAttempt < ops[i].time)
    && (forall i, j :: 0 <= i < j < |ops| && CountedTry(ops[i], r.Service()) && ops[j].OpGood? ==>
          ops[i].time < ops[j].time)
  }

  lemma TimeBefore(r: AddrInfo, ops: seq<Op>, lastGood: int)
    requires ops != [] && TimeGoesOn(r, ops, lastGood)
    ensures TimeGoesOn(r, ops[..|ops| - 1], lastGood)
  {
    hide LastGood;
    var front := ops[..|ops| - 1];
    assert forall i :: 0 <= i < |front| ==> front[i] == ops[i] && front[..i] == ops[..i];
  }

  /** The last counted attempt is older than the last success of anyone exactly when a new round is open. */
  lemma {:induction false} CountedWhen(r: AddrInfo, ops: seq<Op>, lastGood: int)
    requires TimeGoesOn(r, ops, lastGood)
    ensures var q, x := HeardAll(r, ops, lastGood), r.Service();
      && (q.lastCountAttempt < LastGood(ops, lastGood) <==> Open(ops, x, r.lastCountAttempt < lastGood))
      && (q.lastCountAttempt == r.lastCountAttempt || CountedAt(ops, x, q.lastCountAttempt))
    decreases |ops|
  {
    hide Uint32, TimeGoesOn;
    if ops != [] {
      var k := |ops| - 1;
      var front := ops[..k];
      TimeBefore(r, ops, lastGood);
      CountedWhen(r, front, lastGood);
      HeardKeeps(r, front, lastGood);
      LastOne(r, ops, lastGood, HeardAll(r, front, lastGood).lastCountAttempt);
    }
  }

  predicate CountedAt(ops: seq<Op>, x: Service, time: int)
  {
    exists i :: 0 <= i < |ops| && CountedTry(ops[i], x) && time == ops[i].time
  }

  /** What the progress of time says about the last call. */
  lemma LastOne(r: AddrInfo, ops: seq<Op>, lastGood: int, c: int)
    requires ops != [] && TimeGoesOn(r, ops, lastGood)
    requires c == r.lastCountAttempt || CountedAt(ops[..|ops| - 1], r.Service(), c)
    ensures var op := ops[|ops| - 1];
      && (op.OpGood? ==> c < op.time)
      && (CountedTry(op, r.Service()) ==> LastGood(ops[..|ops| - 1], lastGood) <= op.time)
    ensures c == r.lastCountAttempt || CountedAt(ops, r.Service(), c)
  {
    hide LastGood;
    var front := ops[..|ops| - 1];
    if c != r.lastCountAttempt {
      var i :| 0 <= i < |front| && CountedTry(front[i], r.Service()) && c == front[i].time;
      assert front[i] == ops[i];
    }
  }

  /** The rounds after one call more. */
  lemma RoundsNext(ops: seq<Op>, x: Service, atFirst: bool)
    requires ops != []
    ensures var k := |ops| - 1;
      && k !in Rounds(ops[..k], x, atFirst)
      && Rounds(ops, x, atFirst) ==
         if Succeeds(ops[k], x) then {}
         else Rounds(ops[..k], x, atFirst) + if FirstInRound(ops, k, x, atFirst) then {k} else {}
  {
    hide Open;
    var k := |ops| - 1;
    var front := ops[..k];
    forall i: nat | i < k ensures FirstInRound(front, i, x, atFirst) <==> FirstInRound(ops, i, x, atFirst) {
      assert front[i] == ops[i] && front[..i] == ops[..i];
    }
    forall i: nat
      ensures i in Rounds(ops, x, atFirst) <==>
        !Succeeds(ops[k], x) && (i in Rounds(front, x, atFirst) || (i == k && FirstInRound(ops, k, x, atFirst)))
    {
      if i < k { assert forall j :: i < j < k ==> front[j] == ops[j]; }
    }
  }

  /** The address itself has had a success. */
  predicate HasSucceeded(ops: seq<Op>, x: Service) { exists i :: 0 <= i < |ops| && Succeeds(ops[i], x) }

  lemma SucceededNext(ops: seq<Op>, x: Service)
    requires ops != []
    ensures HasSucceeded(ops, x) <==> Succeeds(ops[|ops| - 1], x) || HasSucceeded(ops[..|ops| - 1], x)
  {
    var front := ops[..|ops| - 1];
    assert forall i :: 0 <= i < |front| ==> front[i] == ops[i];
  }

  /** The failures counted are the rounds with a counted attempt since the address itself had a success, or since
      the start, where it may come with some already. */
  lemma {:induction false} FailuresAreRounds(r: AddrInfo, ops: seq<Op>, lastGood: int)
    requires TimeGoesOn(r, ops, lastGood)
    ensures var x := r.Service();
      HeardAll(r, ops, lastGood).attempts ==
        |Rounds(ops, x, r.lastCountAttempt < lastGood)| + if HasSucceeded(ops, x) then 0 else r.attempts
    decreases |ops|
  {
    hide Uint32, TimeGoesOn, Rounds, HasSucceeded, Open, LastGood;
    var x, atFirst := r.Service(), r.lastCountAttempt < lastGood;
    if ops == [] {
      NoRounds(x, atFirst);
    } else {
      var k := |ops| - 1;
      TimeBefore(r, ops, lastGood);
      FailuresAreRounds(r, ops[..k], lastGood);
      CountedWhen(r, ops[..k], lastGood);
      HeardKeeps(r, ops[..k], lastGood);
      RoundsNext(ops, x, atFirst);
      SucceededNext(ops, x);
    }
  }

  lemma NoRounds(x: Service, atFirst: bool)
    ensures Rounds([], x, atFirst) == {} && !HasSucceeded([], x)
  {
  }

  /** Time has to go on for that: with a success of another address in the very second of a counted attempt, the
      next round's attempt is not counted. */
  lemma SameSecond(r: AddrInfo, y: Service)
    requires y != r.Service() && r.attempts == 0 && r.lastCountAttempt == 0
    ensures var x := r.Service();
      var ops := [OpAttempt(x, true, 5), OpGood(y, 5), OpAttempt(x, true, 6)];
      HeardAll(r, ops, 1).attempts == 1 && Rounds(ops, x, true) == {0, 2}
  {
    hide Uint32;
    var x := r.Service();
    var ops := [OpAttempt(x, true, 5), OpGood(y, 5), OpAttempt(x, true, 6)];
    assert ops[..2][..1] == ops[..1] && ops[..1][..0] == [];
    assert HeardAll(r, ops[..1], 1) == r.(lastTry := 5, lastCountAttempt := 5, attempts := 1);
    assert HeardAll(r, ops[..2], 1) == HeardAll(r, ops[..1], 1) && LastGood(ops[..2], 1) == 5;
    assert Open(ops[..0], x, true) && Open(ops[..2], x, true);
    assert FirstInRound(ops, 0, x, true) && FirstInRound(ops, 2, x, true) && !FirstInRound(ops, 1, x, true);
  }

  // ----- services and times -----

  predicate Resets(op: Op, x: Service) { op.OpSetServices? && op.service == x }

  predicate Announces(op: Op, x: Service) { op.OpAdd? && op.routable && op.address.service.net == x.net }

  predicate Gives(op: Op, x: Service, flag: nat)
  {
    (Resets(op, x) && flag in op.services) || (Announces(op, x) && flag in op.address.services)
  }

  predicate NoResetFrom(ops: seq<Op>, i: nat, x: Service) { forall j :: i <= j < |ops| ==> !Resets(ops[j], x) }

  /** A service is listed exactly if it was set or announced and not reset since, or was there at the start and
      never reset. */
  lemma {:induction false} ServicesHeard(r: AddrInfo, ops: seq<Op>, lastGood: int, flag: nat)
    ensures var x := r.Service();
      flag in HeardAll(r, ops, lastGood).address.services <==>
        || (flag in r.address.services && NoResetFrom(ops, 0, x))
        || exists i: nat :: i < |ops| && Gives(ops[i], x, flag) && NoResetFrom(ops, i + 1, x)
    decreases |ops|
  {
    hide Uint32, Max;
    if ops != [] {
      var k := |ops| - 1;
      var front, x := ops[..k], r.Service();
      ServicesHeard(r, front, lastGood, flag);
      HeardKeeps(r, front, lastGood);
      assert forall i :: 0 <= i < k ==> front[i] == ops[i];
      forall i: nat | i <= k ensures NoResetFrom(ops, i, x) <==> !Resets(ops[k], x) && NoResetFrom(front, i, x) { }
      assert NoResetFrom(ops, k + 1, x);
    }
  }

  const U32: int := 0x1_0000_0000

  /** The times reported fit 32 bits, and penalties are not negative. */
  predicate Sane(op: Op)
  {
    && (op.OpAdd? ==> op.address.time < U32 && op.timePenalty >= 0)
    && (op.OpConnected? ==> 0 <= op.time < U32)
  }

  function Interval(op: Op): int
    requires op.OpAdd?
  {
    if op.now - op.address.time < DAY then 60 * 60 else DAY
  }

  /** A report that the address was seen, and the least time that has to be on record afterwards. */
  predicate Sees(op: Op, x: Service)
  {
    (op.OpConnected? && op.service == x) || (Announces(op, x) && op.address.time != 0)
  }

  function SeenBy(op: Op): int
    requires op.OpConnected? || op.OpAdd?
  {
    if op.OpConnected? then op.time else Max(0, op.address.time - Penalty(op))
  }

  function Due(op: Op): int
    requires op.OpConnected? || op.OpAdd?
  {
    if op.OpConnected? then op.time - 20 * 60 else op.address.time - Penalty(op) - Interval(op)
  }

  /** One report: the time on record is replaced exactly when it is too old, or not known. */
  lemma SeenOnce(r: AddrInfo, op: Op, lastGood: int)
    requires Sane(op) && r.address.time < U32
    ensures var q := Heard(r, op, lastGood);
      q.address.time ==
        if Sees(op, r.Service()) && (r.address.time < Due(op) || (op.OpAdd? && r.address.time == 0)) then SeenBy(op)
        else r.address.time
    ensures Heard(r, op, lastGood).address.time < U32
  {
  }

  /** The time on record never goes back, is that of a report or the one at the start, and no report finds it
      older than is due; if no report is due, it stays. */
  lemma {:induction false} TimesHeard(r: AddrInfo, ops: seq<Op>, lastGood: int)
    requires r.address.time < U32 && forall i :: 0 <= i < |ops| ==> Sane(ops[i])
    ensures var t, x := HeardAll(r, ops, lastGood).address.time, r.Service();
      && r.address.time <= t < U32
      && (forall i :: 0 <= i < |ops| && Sees(ops[i], x) ==> t >= Due(ops[i]))
      && (t == r.address.time || exists i :: 0 <= i < |ops| && Sees(ops[i], x) && t == SeenBy(ops[i]))
      && (r.address.time > 0 && (forall i :: 0 <= i < |ops| && Sees(ops[i], x) ==> Due(ops[i]) <= r.address.time) ==>
            t == r.address.time)
    decreases |ops|
  {
    hide Heard, Sees, Due, SeenBy;
    if ops != [] {
      var k := |ops| - 1;
      var front := ops[..k];
      assert forall i :: 0 <= i < k ==> front[i] == ops[i];
      TimesHeard(r, front, lastGood);
      HeardKeeps(r, front, lastGood);
      var q := HeardAll(r, front, lastGood);
      SeenOnce(q, ops[k], LastGood(front, lastGood));
      if Sees(ops[k], r.Service()) { DueBefore(ops[k], r.Service()); }
    }
  }

  lemma DueBefore(op: Op, x: Service)
    requires Sees(op, x)
    ensures Due(op) < SeenBy(op) && (op.OpAdd? ==> SeenBy(op) >= 0)
  {
  }
}
