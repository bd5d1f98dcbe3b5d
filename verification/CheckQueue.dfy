/** The parallel verification queue: one master, any number of workers, every interleaving.
    A step is one region under the mutex, or the unlocked execution of one batch. */
module CheckQueue {

  type Check = nat

  /** Where a thread stands. Thread 0 is the master, the others are workers. */
  datatype Thread =
    | Outside                                    // not in the loop
    | Starting                                   // about to take the mutex for the first time
    | Parked(notified: bool)                     // waiting on its condition variable
    | Working(batch: seq<Check>, ok: bool)       // executing a batch without the mutex
    | Finished(batch: seq<Check>, ok: bool)      // batch executed, about to take the mutex again

  /** The queue's fields, the threads, and a record of what was added since the master last
      returned, what has been accounted for, and what each call of Wait answered. */
  datatype State = State(
    queue: seq<Check>,
    nIdle: int,
    nTotal: int,
    allOk: bool,
    nTodo: int,
    batchSize: nat,
    threads: seq<Thread>,
    added: multiset<Check>,
    completed: multiset<Check>,
    verdicts: seq<(multiset<Check>, bool)>)

  function Init(batchSize: nat, workers: nat): State
  {
    State([], 0, 0, true, 0, batchSize, seq(workers + 1, _ => Outside), multiset{}, multiset{}, [])
  }

  datatype Action =
    | Start(k: nat)                          // a worker thread is created, or the master calls Wait
    | Add(checks: seq<Check>, woken: nat)    // the master adds checks; woken: which worker notify_one picks
    | Execute(k: nat)                        // thread k runs its batch
    | Lock(k: nat)                           // thread k runs its region under the mutex

  function NotifyMaster(threads: seq<Thread>): (r: seq<Thread>)
    ensures |r| == |threads|
  {
    if |threads| > 0 && threads[0].Parked? then threads[0 := Parked(true)] else threads
  }

  function NotifyWorkers(threads: seq<Thread>, count: nat, woken: nat): (r: seq<Thread>)
    ensures |r| == |threads|
  {
    if count == 0 then threads
    else if count == 1 then
      if 0 < woken < |threads| && threads[woken].Parked? then threads[woken := Parked(true)] else threads
    else seq(|threads|, k requires 0 <= k < |threads| => if k > 0 then Woken(threads[k]) else threads[k])
  }

  function Woken(t: Thread): Thread { if t.Parked? then Parked(true) else t }

  /** How many checks a thread takes: a fair share of the queue among all threads, the idle ones counted twice, but
      at least one and at most a batch. */
  function NowCount(queueSize: nat, batchSize: nat, nTotal: int, nIdle: int): (n: nat)
    requires queueSize > 0 && nTotal + nIdle >= 0
    ensures 1 <= n <= queueSize && (batchSize > 0 ==> n <= batchSize)
    ensures n == 1 || n * (nTotal + nIdle + 1) <= queueSize
    ensures n < batchSize ==> (n + 1) * (nTotal + nIdle + 1) > queueSize
  {
    var share := queueSize / (nTotal + nIdle + 1);
    DivBound(queueSize, nTotal + nIdle + 1, if batchSize < share then batchSize else share);
    var capped := if batchSize < share then batchSize else share;
    if capped < 1 then 1 else capped
  }

  lemma DivBound(a: nat, b: nat, n: nat)
    requires b >= 1
    ensures 0 <= a / b <= a && a < (a / b + 1) * b
    ensures n <= a / b ==> n * b <= a
  {
    var q := a / b;
    assert a == q * b + a % b;
    if n <= q { assert n * b <= q * b; }
  }

  /** Popping n checks off the back, one by one. */
  function Taken(queue: seq<Check>, n: nat): (r: seq<Check>)
    requires n <= |queue|
    ensures |r| == n && multiset(queue) == multiset(queue[..|queue| - n]) + multiset(r)
    ensures forall j :: 0 <= j < n ==> r[j] == queue[|queue| - 1 - j]
  {
    if n == 0 then
      assert queue[..|queue|] == queue;
      []
    else
      var front := queue[..|queue| - 1];
      assert queue == front + [queue[|queue| - 1]];
      assert front[..|front| - (n - 1)] == queue[..|queue| - n];
      [queue[|queue| - 1]] + Taken(front, n - 1)
  }

  /** Executing a batch: after a failure the remaining checks are skipped. */
  function Executed(batch: seq<Check>, ok: bool, passes: Check -> bool): bool
    decreases |batch|
  {
    if batch == [] then ok
    else if ok then Executed(batch[1..], passes(batch[0]), passes)
    else Executed(batch[1..], false, passes)
  }

  lemma {:induction false} ExecutedMeaning(batch: seq<Check>, ok: bool, passes: Check -> bool)
    ensures Executed(batch, ok, passes) <==> ok && forall c :: c in batch ==> passes(c)
    decreases |batch|
  {
    if batch != [] {
      ExecutedMeaning(batch[1..], ok && passes(batch[0]), passes);
      assert batch == [batch[0]] + batch[1..];
    }
  }

  /** The clean-up at the start of the region: account for the previous batch, or join, or wake up. */
  function Settle(s: State, k: nat): (t: State)
    requires k < |s.threads|
    ensures |t.threads| == |s.threads|
  {
    match s.threads[k]
    case Finished(batch, ok) =>
      var todo := s.nTodo - |batch|;
      s.(allOk := s.allOk && ok, nTodo := todo, completed := s.completed + multiset(batch),
         threads := if todo == 0 && k != 0 then NotifyMaster(s.threads) else s.threads)
    case Starting => s.(nTotal := s.nTotal + 1)
    case Parked(_) => s.(nIdle := s.nIdle - 1)
    case _ => s
  }

  /** The rest of the region: return, park, or take a batch. */
  function Proceed(s: State, k: nat): State
    requires k < |s.threads| && (s.queue != [] ==> s.nTotal + s.nIdle >= 0)
  {
    if s.queue == [] then
      if k == 0 && s.nTodo == 0 then
        s.(nTotal := s.nTotal - 1, allOk := true, threads := s.threads[k := Outside],
           added := multiset{}, completed := multiset{}, verdicts := s.verdicts + [(s.added, s.allOk)])
      else
        s.(nIdle := s.nIdle + 1, threads := s.threads[k := Parked(false)])
    else
      var n := NowCount(|s.queue|, s.batchSize, s.nTotal, s.nIdle);
      s.(queue := s.queue[..|s.queue| - n], threads := s.threads[k := Working(Taken(s.queue, n), s.allOk)])
  }

  /** A thread that finds checks takes the last ones, and does not execute any if a failure is known already. */
  lemma ProceedTakes(s: State, k: nat)
    requires k < |s.threads| && s.queue != [] && s.nTotal + s.nIdle >= 0
    ensures var t := Proceed(s, k);
      && t.threads[k].Working? && t.threads[k].ok == s.allOk && 0 < |t.threads[k].batch| <= |s.queue|
      && t.queue == s.queue[..|s.queue| - |t.threads[k].batch|]
      && forall j :: 0 <= j < |t.threads[k].batch| ==> t.threads[k].batch[j] == s.queue[|s.queue| - 1 - j]
  {
  }

  /** Adding checks wakes the workers: all that are parked, or the one picked if there is a single check; nobody
      else is touched. */
  lemma AddWakes(threads: seq<Thread>, count: nat, woken: nat, k: nat)
    requires k < |threads|
    ensures NotifyWorkers(threads, count, woken)[k] ==
      if k > 0 && threads[k].Parked? && (count > 1 || (count == 1 && k == woken)) then Parked(true) else threads[k]
  {
  }

  predicate Enabled(s: State, a: Action)
  {
    match a
    case Start(k) => k < |s.threads| && s.threads[k].Outside?
    case Add(_, _) => |s.threads| > 0 && s.threads[0].Outside?
    case Execute(k) => k < |s.threads| && s.threads[k].Working?
    case Lock(k) => k < |s.threads| && (s.threads[k].Starting? || s.threads[k].Finished? || s.threads[k].Parked?)
  }

  function Step(s: State, a: Action, passes: Check -> bool): State
    requires Enabled(s, a) && Inv(s, passes)
  {
    match a
    case Start(k) => s.(threads := s.threads[k := Starting])
    case Add(checks, woken) =>
      s.(queue := s.queue + checks, nTodo := s.nTodo + |checks|, added := s.added + multiset(checks),
         threads := NotifyWorkers(s.threads, |checks|, woken))
    case Execute(k) =>
      s.(threads := s.threads[k := Finished(s.threads[k].batch, Executed(s.threads[k].batch, s.threads[k].ok, passes))])
    case Lock(k) =>
      SettleCounts(s, k, passes);
      Proceed(Settle(s, k), k)
  }

  // ----- sums over threads -----

  function BatchSize(t: Thread): nat { if t.Working? || t.Finished? then |t.batch| else 0 }
  function IdleCount(t: Thread): nat { if t.Parked? then 1 else 0 }
  function LoopCount(t: Thread): nat { if t.Outside? || t.Starting? then 0 else 1 }

  function Sum(threads: seq<Thread>, f: Thread -> nat): nat
  {
    if threads == [] then 0 else f(threads[0]) + Sum(threads[1..], f)
  }

  lemma {:induction false} SumUpdate(threads: seq<Thread>, f: Thread -> nat, k: nat, t: Thread)
    requires k < |threads|
    ensures Sum(threads[k := t], f) == Sum(threads, f) - f(threads[k]) + f(t)
    decreases |threads|
  {
    if k == 0 {
      assert threads[0 := t][1..] == threads[1..];
    } else {
      SumUpdate(threads[1..], f, k - 1, t);
      assert threads[k := t][1..] == threads[1..][k - 1 := t];
    }
  }

  lemma {:induction false} SumSame(a: seq<Thread>, b: seq<Thread>, f: Thread -> nat)
    requires |a| == |b| && forall k :: 0 <= k < |a| ==> f(a[k]) == f(b[k])
    ensures Sum(a, f) == Sum(b, f)
    decreases |a|
  {
    if a != [] { SumSame(a[1..], b[1..], f); }
  }

  lemma {:induction false} SumAtLeast(threads: seq<Thread>, f: Thread -> nat, k: nat)
    requires k < |threads|
    ensures f(threads[k]) <= Sum(threads, f)
    decreases |threads|
  {
    if k > 0 { SumAtLeast(threads[1..], f, k - 1); }
  }

  lemma {:induction false} SumZero(threads: seq<Thread>, f: Thread -> nat)
    requires forall k :: 0 <= k < |threads| ==> f(threads[k]) == 0
    ensures Sum(threads, f) == 0
    decreases |threads|
  {
    if threads != [] { SumZero(threads[1..], f); }
  }

  function Held(t: Thread): multiset<Check> { if t.Working? || t.Finished? then multiset(t.batch) else multiset{} }

  function AllHeld(threads: seq<Thread>): multiset<Check>
  {
    if threads == [] then multiset{} else Held(threads[0]) + AllHeld(threads[1..])
  }

  lemma {:induction false} HeldUpdate(threads: seq<Thread>, k: nat, t: Thread)
    requires k < |threads|
    ensures AllHeld(threads[k := t]) + Held(threads[k]) == AllHeld(threads) + Held(t)
    decreases |threads|
  {
    hide Held;
    var rest := threads[1..];
    if k == 0 {
      assert threads[0 := t][1..] == rest;
      Shift(AllHeld(rest), Held(t), Held(threads[0]));
    } else {
      HeldUpdate(rest, k - 1, t);
      assert threads[k := t][1..] == rest[k - 1 := t];
      Extend(Held(threads[0]), AllHeld(rest[k - 1 := t]), Held(threads[k]), AllHeld(rest), Held(t));
    }
  }

  lemma Shift(rest: multiset<Check>, x: multiset<Check>, y: multiset<Check>)
    ensures (x + rest) + y == (y + rest) + x
  {
  }

  lemma Extend(h: multiset<Check>, a: multiset<Check>, x: multiset<Check>, b: multiset<Check>, y: multiset<Check>)
    requires a + x == b + y
    ensures (h + a) + x == (h + b) + y
  {
    assert (h + a) + x == h + (a + x);
    assert (h + b) + y == h + (b + y);
  }

  lemma {:induction false} HeldSame(a: seq<Thread>, b: seq<Thread>)
    requires |a| == |b| && forall k :: 0 <= k < |a| ==> Held(a[k]) == Held(b[k])
    ensures AllHeld(a) == AllHeld(b)
    decreases |a|
  {
    if a != [] { HeldSame(a[1..], b[1..]); }
  }

  lemma {:induction false} HeldSize(threads: seq<Thread>)
    ensures |AllHeld(threads)| == Sum(threads, BatchSize)
    decreases |threads|
  {
    if threads != [] { HeldSize(threads[1..]); }
  }

  // ----- the invariant -----

  ghost predicate Fails(m: multiset<Check>, passes: Check -> bool)
  {
    exists c :: c in m && !passes(c)
  }

  /** The counters are exact. */
  ghost predicate Counts(s: State)
  {
    && s.nTodo == |s.queue| + Sum(s.threads, BatchSize)
    && s.nIdle == Sum(s.threads, IdleCount)
    && s.nTotal == Sum(s.threads, LoopCount)
    && (forall k :: 0 <= k < |s.threads| ==> (s.threads[k].Working? || s.threads[k].Finished? ==>
          |s.threads[k].batch| > 0))
  }

  /** Every added check is queued, in some batch, or accounted for. */
  ghost predicate Conserved(s: State)
  {
    s.added == multiset(s.queue) + AllHeld(s.threads) + s.completed
  }

  /** A verdict of failure is only ever due to a failing check; success covers all that is accounted for. */
  ghost predicate Honest(s: State, passes: Check -> bool)
  {
    && (s.allOk ==> forall c :: c in s.completed ==> passes(c))
    && (!s.allOk ==> Fails(s.added, passes))
    && (forall k :: 0 <= k < |s.threads| && s.threads[k].Working? && !s.threads[k].ok ==> Fails(s.added, passes))
    && (forall k :: 0 <= k < |s.threads| && s.threads[k].Finished? ==>
          if s.threads[k].ok then forall c :: c in s.threads[k].batch ==> passes(c) else Fails(s.added, passes))
  }

  /** A master that is parked without a pending notification has work outstanding elsewhere. */
  ghost predicate NoLostWakeup(s: State)
  {
    |s.threads| > 0 && (s.threads[0].Parked? ==> s.queue == [] && (!s.threads[0].notified ==> s.nTodo > 0))
  }

  ghost predicate Answers(s: State, passes: Check -> bool)
  {
    forall r :: r in s.verdicts ==> (r.1 <==> forall c :: c in r.0 ==> passes(c))
  }

  ghost predicate Inv(s: State, passes: Check -> bool)
  {
    Counts(s) && Conserved(s) && Honest(s, passes) && NoLostWakeup(s) && Answers(s, passes)
  }

  lemma SettleCounts(s: State, k: nat, passes: Check -> bool)
    requires Inv(s, passes) && Enabled(s, Lock(k))
    ensures var t := Settle(s, k); t.nTotal + t.nIdle >= 0
  {
    SumAtLeast(s.threads, IdleCount, k);
  }

  lemma InitInv(batchSize: nat, workers: nat, passes: Check -> bool)
    ensures Inv(Init(batchSize, workers), passes)
  {
    var s := Init(batchSize, workers);
    SumZero(s.threads, BatchSize);
    SumZero(s.threads, IdleCount);
    SumZero(s.threads, LoopCount);
    HeldSize(s.threads);
  }

  lemma {:induction false} HeldMember(threads: seq<Thread>, k: nat)
    requires k < |threads|
    ensures forall c :: c in Held(threads[k]) ==> c in AllHeld(threads)
    decreases |threads|
  {
    if k > 0 { HeldMember(threads[1..], k - 1); }
  }

  /** Replacing a thread's state by one of the same weight and the same batch. */
  lemma SameWeights(a: seq<Thread>, b: seq<Thread>)
    requires |a| == |b|
    requires forall k :: 0 <= k < |a| ==> BatchSize(a[k]) == BatchSize(b[k]) && IdleCount(a[k]) == IdleCount(b[k]) &&
                                          LoopCount(a[k]) == LoopCount(b[k]) && Held(a[k]) == Held(b[k])
    ensures Sum(a, BatchSize) == Sum(b, BatchSize) && Sum(a, IdleCount) == Sum(b, IdleCount)
    ensures Sum(a, LoopCount) == Sum(b, LoopCount) && AllHeld(a) == AllHeld(b)
  {
    SumSame(a, b, BatchSize);
    SumSame(a, b, IdleCount);
    SumSame(a, b, LoopCount);
    HeldSame(a, b);
  }

  lemma StartKeeps(s: State, k: nat, passes: Check -> bool)
    requires Inv(s, passes) && Enabled(s, Start(k))
    ensures Inv(Step(s, Start(k), passes), passes)
  {
    SameWeights(s.threads, s.threads[k := Starting]);
  }

  /** Notifications only mark parked threads. */
  ghost predicate OnlyNotified(a: seq<Thread>, b: seq<Thread>)
  {
    |a| == |b| && forall k :: 0 <= k < |a| ==> b[k] == a[k] || (a[k].Parked? && b[k] == Parked(true))
  }

  lemma OnlyNotifiedWeights(a: seq<Thread>, b: seq<Thread>)
    requires OnlyNotified(a, b)
    ensures Sum(a, BatchSize) == Sum(b, BatchSize) && Sum(a, IdleCount) == Sum(b, IdleCount)
    ensures Sum(a, LoopCount) == Sum(b, LoopCount) && AllHeld(a) == AllHeld(b)
  {
    SameWeights(a, b);
  }

  lemma FailsGrows(a: multiset<Check>, b: multiset<Check>, passes: Check -> bool)
    requires a <= b && Fails(a, passes)
    ensures Fails(b, passes)
  {
    var c :| c in a && !passes(c);
    assert c in b;
  }

  lemma HonestGrows(s: State, t: State, passes: Check -> bool)
    requires Honest(s, passes) && OnlyNotified(s.threads, t.threads) && s.added <= t.added
    requires t.allOk == s.allOk && t.completed == s.completed
    ensures Honest(t, passes)
  {
    if Fails(s.added, passes) {
      FailsGrows(s.added, t.added, passes);
    }
  }

  lemma AddKeeps(s: State, checks: seq<Check>, woken: nat, passes: Check -> bool)
    requires Inv(s, passes) && Enabled(s, Add(checks, woken))
    ensures Inv(Step(s, Add(checks, woken), passes), passes)
  {
    hide Sum, AllHeld, Honest;
    var t := Step(s, Add(checks, woken), passes);
    assert OnlyNotified(s.threads, t.threads);
    OnlyNotifiedWeights(s.threads, t.threads);
    HonestGrows(s, t, passes);
  }

  lemma ExecuteHonest(s: State, k: nat, passes: Check -> bool)
    requires Conserved(s) && Honest(s, passes) && Enabled(s, Execute(k))
    ensures var w := s.threads[k];
            Honest(s.(threads := s.threads[k := Finished(w.batch, Executed(w.batch, w.ok, passes))]), passes)
  {
    var w := s.threads[k];
    ExecutedMeaning(w.batch, w.ok, passes);
    HeldMember(s.threads, k);
    if w.ok && !Executed(w.batch, w.ok, passes) {
      var c :| c in w.batch && !passes(c);
      assert c in Held(w);
      assert c in s.added;
    }
  }

  lemma ExecuteKeeps(s: State, k: nat, passes: Check -> bool)
    requires Inv(s, passes) && Enabled(s, Execute(k))
    ensures Inv(Step(s, Execute(k), passes), passes)
  {
    hide Sum, AllHeld, Honest, Executed;
    var t := Step(s, Execute(k), passes);
    SameWeights(s.threads, t.threads);
    ExecuteHonest(s, k, passes);
  }

  /** The state while thread k is inside the region: k itself is set aside, but still counted as in the loop. */
  function Aside(t: State, k: nat): State
    requires k < |t.threads|
  {
    t.(threads := t.threads[k := Outside], nTotal := t.nTotal - 1)
  }

  ghost predicate Mid(t: State, k: nat, passes: Check -> bool)
    requires k < |t.threads|
  {
    var u := Aside(t, k);
    Counts(u) && Conserved(u) && Honest(u, passes) && NoLostWakeup(u) && Answers(u, passes)
  }

  lemma WithoutThread(threads: seq<Thread>, k: nat)
    requires k < |threads|
    ensures Sum(threads[k := Outside], BatchSize) == Sum(threads, BatchSize) - BatchSize(threads[k])
    ensures Sum(threads[k := Outside], IdleCount) == Sum(threads, IdleCount) - IdleCount(threads[k])
    ensures Sum(threads[k := Outside], LoopCount) == Sum(threads, LoopCount) - LoopCount(threads[k])
    ensures AllHeld(threads[k := Outside]) + Held(threads[k]) == AllHeld(threads)
  {
    SumUpdate(threads, BatchSize, k, Outside);
    SumUpdate(threads, IdleCount, k, Outside);
    SumUpdate(threads, LoopCount, k, Outside);
    HeldUpdate(threads, k, Outside);
    assert AllHeld(threads) + Held(Outside) == AllHeld(threads);
  }

  lemma SettleHonest(s: State, k: nat, passes: Check -> bool)
    requires Honest(s, passes) && Enabled(s, Lock(k))
    ensures Honest(Aside(Settle(s, k), k), passes)
  {
    hide Fails;
    var t := Settle(s, k);
    assert OnlyNotified(s.threads, t.threads);
    if s.threads[k].Finished? && t.allOk {
      forall c | c in t.completed ensures passes(c) {
        assert c in s.completed || c in s.threads[k].batch;
      }
    }
  }

  /** What the clean-up amounts to, whatever brought the thread here. */
  lemma SettleEffect(s: State, k: nat)
    requires Enabled(s, Lock(k))
    ensures var t := Settle(s, k);
            && OnlyNotified(s.threads, t.threads)
            && BatchSize(t.threads[k]) == BatchSize(s.threads[k]) && Held(t.threads[k]) == Held(s.threads[k])
            && IdleCount(t.threads[k]) == IdleCount(s.threads[k]) && LoopCount(t.threads[k]) == LoopCount(s.threads[k])
            && t.queue == s.queue && t.added == s.added && t.verdicts == s.verdicts
            && t.completed == s.completed + Held(s.threads[k])
            && t.nTodo == s.nTodo - BatchSize(s.threads[k])
            && t.nIdle == s.nIdle - IdleCount(s.threads[k])
            && t.nTotal - 1 == s.nTotal - LoopCount(s.threads[k])
  {
    assert s.completed + multiset{} == s.completed;
  }

  lemma SettleWakes(s: State, k: nat)
    requires Enabled(s, Lock(k)) && NoLostWakeup(s)
    requires s.nTodo - BatchSize(s.threads[k]) >= 0
    ensures NoLostWakeup(Aside(Settle(s, k), k))
  {
  }

  lemma SettleConserves(s: State, k: nat)
    requires Conserved(s) && Enabled(s, Lock(k))
    ensures Conserved(Aside(Settle(s, k), k))
  {
    hide Sum, AllHeld, Settle;
    var t := Settle(s, k);
    SettleEffect(s, k);
    WithoutThread(t.threads, k);
    OnlyNotifiedWeights(s.threads, t.threads);
    Regroup(s.added, multiset(s.queue), AllHeld(s.threads), s.completed, AllHeld(t.threads[k := Outside]),
        Held(s.threads[k]));
  }

  lemma Regroup(added: multiset<Check>, queue: multiset<Check>, held: multiset<Check>, completed: multiset<Check>,
                others: multiset<Check>, batch: multiset<Check>)
    requires added == queue + held + completed && others + batch == held
    ensures added == queue + others + (completed + batch)
  {
  }

  lemma SettleKeeps(s: State, k: nat, passes: Check -> bool)
    requires Inv(s, passes) && Enabled(s, Lock(k))
    ensures Mid(Settle(s, k), k, passes)
  {
    hide Sum, AllHeld, Honest, Conserved, Fails, Settle, NoLostWakeup;
    var t := Settle(s, k);
    SettleEffect(s, k);
    WithoutThread(t.threads, k);
    OnlyNotifiedWeights(s.threads, t.threads);
    SumAtLeast(s.threads, BatchSize, k);
    SettleConserves(s, k);
    SettleHonest(s, k, passes);
    SettleWakes(s, k);
  }

  lemma ProceedKeeps(t: State, k: nat, passes: Check -> bool)
    requires k < |t.threads| && Mid(t, k, passes) && (t.queue != [] ==> t.nTotal + t.nIdle >= 0)
    ensures Inv(Proceed(t, k), passes)
  {
    hide Sum, AllHeld, Taken, NowCount, Honest, Conserved, Fails;
    var u := Aside(t, k);
    var v := Proceed(t, k);
    if t.queue == [] && k == 0 && t.nTodo == 0 {
      ReturnKeeps(t, passes);
    } else {
      assert v.threads[k := Outside] == u.threads;
      assert v.threads == u.threads[k := v.threads[k]];
      WithoutThread(v.threads, k);
      TakenConserves(u, v, k);
      HonestOther(u, v, k, passes);
    }
  }

  lemma TakenConserves(u: State, v: State, k: nat)
    requires Conserved(u) && k < |u.threads| == |v.threads| && v.threads[k := Outside] == u.threads
    requires v.added == u.added && v.completed == u.completed
    requires multiset(u.queue) == multiset(v.queue) + Held(v.threads[k])
    ensures Conserved(v)
  {
    hide Sum, AllHeld;
    WithoutThread(v.threads, k);
  }

  lemma HonestOther(u: State, v: State, k: nat, passes: Check -> bool)
    requires Honest(u, passes) && k < |u.threads| == |v.threads| && v.allOk == u.allOk && v.added == u.added
    requires v.completed == u.completed
    requires v.threads == u.threads[k := v.threads[k]]
    requires v.threads[k].Parked? || (v.threads[k].Working? && v.threads[k].ok == u.allOk)
    ensures Honest(v, passes)
  {
    hide Fails;
  }

  /** When the master returns nothing is outstanding, so its answer covers everything added. */
  lemma ReturnKeeps(t: State, passes: Check -> bool)
    requires 0 < |t.threads| && Mid(t, 0, passes) && t.queue == [] && t.nTodo == 0
    ensures t.added == t.completed
    ensures t.allOk <==> forall c :: c in t.added ==> passes(c)
    ensures Inv(Proceed(t, 0), passes)
  {
    hide Sum, AllHeld;
    var u := Aside(t, 0);
    HeldSize(u.threads);
    assert AllHeld(u.threads) == multiset{};
    assert t.added == t.completed;
    forall k | 0 <= k < |u.threads| ensures !u.threads[k].Working? && !u.threads[k].Finished? {
      SumAtLeast(u.threads, BatchSize, k);
    }
    assert Proceed(t, 0).threads == u.threads;
  }

  lemma StepKeeps(s: State, a: Action, passes: Check -> bool)
    requires Inv(s, passes) && Enabled(s, a)
    ensures Inv(Step(s, a, passes), passes)
  {
    hide Inv, Settle, Proceed, Mid;
    match a
    case Start(k) => StartKeeps(s, k, passes);
    case Add(checks, woken) => AddKeeps(s, checks, woken, passes);
    case Execute(k) => ExecuteKeeps(s, k, passes);
    case Lock(k) =>
      SettleCounts(s, k, passes);
      SettleKeeps(s, k, passes);
      ProceedKeeps(Settle(s, k), k, passes);
  }

  // ----- every run -----

  /** Any interleaving; an action that is not possible at its turn is skipped. */
  ghost function Run(s: State, actions: seq<Action>, passes: Check -> bool): (t: State)
    requires Inv(s, passes)
    ensures Inv(t, passes)
    decreases |actions|
  {
    hide Inv, Step;
    if actions == [] then s
    else if Enabled(s, actions[0]) then
      StepKeeps(s, actions[0], passes);
      Run(Step(s, actions[0], passes), actions[1..], passes)
    else Run(s, actions[1..], passes)
  }

  ghost function RunFromStart(batchSize: nat, workers: nat, actions: seq<Action>, passes: Check -> bool): (t: State)
    ensures Inv(t, passes)
  {
    InitInv(batchSize, workers, passes);
    Run(Init(batchSize, workers), actions, passes)
  }

  /** For any number of workers and any interleaving: each call of Wait answered true exactly when all
      checks added since the previous answer pass, and the count of outstanding checks is exact. */
  lemma WaitAnswers(batchSize: nat, workers: nat, actions: seq<Action>, passes: Check -> bool)
    ensures var t := RunFromStart(batchSize, workers, actions, passes);
            && (forall r :: r in t.verdicts ==> (r.1 <==> forall c :: c in r.0 ==> passes(c)))
            && t.nTodo == |t.queue| + Sum(t.threads, BatchSize)
            && t.added == multiset(t.queue) + AllHeld(t.threads) + t.completed
  {
    assert Inv(RunFromStart(batchSize, workers, actions, passes), passes);
  }

  predicate IsIdle(s: State)
  {
    s.nTotal == s.nIdle && s.nTodo == 0 && s.allOk
  }

  lemma {:induction false} LoopOrBatch(threads: seq<Thread>)
    requires forall k :: 0 <= k < |threads| ==> (threads[k].Working? || threads[k].Finished? ==> |threads[k].batch| > 0)
    ensures Sum(threads, IdleCount) <= Sum(threads, LoopCount) <= Sum(threads, IdleCount) + Sum(threads, BatchSize)
    decreases |threads|
  {
    if threads != [] { LoopOrBatch(threads[1..]); }
  }

  /** Whoever is in the loop is parked or holds a batch, so the queue is idle as soon as nothing is outstanding. */
  lemma IdleMeans(s: State, passes: Check -> bool)
    requires Inv(s, passes)
    ensures IsIdle(s) <==> s.nTodo == 0 && s.allOk
    ensures s.nTodo == 0 ==> s.queue == [] && forall k :: 0 <= k < |s.threads| ==>
        !s.threads[k].Working? && !s.threads[k].Finished?
  {
    LoopOrBatch(s.threads);
    if s.nTodo == 0 {
      forall k | 0 <= k < |s.threads| ensures !s.threads[k].Working? && !s.threads[k].Finished? {
        SumAtLeast(s.threads, BatchSize, k);
      }
    }
  }

  /** After Wait has returned, the check that the queue is unused succeeds. */
  lemma IdleAfterWait(s: State, passes: Check -> bool)
    requires Inv(s, passes) && Enabled(s, Lock(0)) && Step(s, Lock(0), passes).threads[0].Outside?
    ensures IsIdle(Step(s, Lock(0), passes))
  {
    hide Inv, Sum, AllHeld, Taken, NowCount, Honest, Conserved;
    SettleCounts(s, 0, passes);
    StepKeeps(s, Lock(0), passes);
    IdleMeans(Step(s, Lock(0), passes), passes);
  }

  // ----- Wait cannot hang -----

  /** Steps of a call of Wait other than spurious wake-ups. */
  predicate Productive(s: State, a: Action)
  {
    && Enabled(s, a)
    && (a.Execute? || (a.Lock? && s.threads[a.k] != Parked(false)))
  }

  function Weight(t: Thread): nat
  {
    match t
    case Outside => 0
    case Starting => 1
    case Parked(notified) => if notified then 1 else 0
    case Working(batch, _) => 3 * |batch|
    case Finished(batch, _) => 2 * |batch|
  }

  /** Bounds the number of productive steps that are still possible. */
  function Measure(s: State): nat { 4 * |s.queue| + Sum(s.threads, Weight) }

  lemma ProductiveDecreases(s: State, a: Action, passes: Check -> bool)
    requires Inv(s, passes) && Productive(s, a)
    ensures Measure(Step(s, a, passes)) < Measure(s)
  {
    hide Sum, AllHeld, Honest, Conserved, Answers, Taken, Executed, Settle, Proceed;
    match a
    case Execute(k) =>
      SumUpdate(s.threads, Weight, k, Finished(s.threads[k].batch,
          Executed(s.threads[k].batch, s.threads[k].ok, passes)));
    case Lock(k) =>
      SettleCounts(s, k, passes);
      SettleWeight(s, k);
      ProceedWeight(Settle(s, k), k);
  }

  lemma SettleWeight(s: State, k: nat)
    requires Enabled(s, Lock(k)) && s.threads[k] != Parked(false)
    requires (s.threads[k].Finished? ==> |s.threads[k].batch| > 0)
    ensures var t := Settle(s, k);
            t.queue == s.queue && Sum(t.threads, Weight) - Weight(t.threads[k]) < Sum(s.threads, Weight)
  {
    SumAtLeast(s.threads, Weight, k);
    if |s.threads| > 0 {
      SumUpdate(s.threads, Weight, 0, Parked(true));
    }
  }

  lemma ProceedWeight(t: State, k: nat)
    requires k < |t.threads| && (t.queue != [] ==> t.nTotal + t.nIdle >= 0)
    ensures Measure(Proceed(t, k)) <= 4 * |t.queue| + Sum(t.threads, Weight) - Weight(t.threads[k])
  {
    SumUpdate(t.threads, Weight, k, Proceed(t, k).threads[k]);
  }

  /** As long as the master is in Wait, some thread can take a productive step. */
  lemma NeverStuck(s: State, passes: Check -> bool) returns (a: Action)
    requires Inv(s, passes) && !s.threads[0].Outside?
    ensures Productive(s, a)
  {
    if s.threads[0].Working? {
      a := Execute(0);
    } else if s.threads[0] == Parked(false) {
      var k := SomeBatch(s.threads);
      a := if s.threads[k].Working? then Execute(k) else Lock(k);
    } else {
      a := Lock(0);
    }
  }

  lemma {:induction false} SomeBatch(threads: seq<Thread>) returns (k: nat)
    requires Sum(threads, BatchSize) > 0
    ensures k < |threads| && (threads[k].Working? || threads[k].Finished?)
    decreases |threads|
  {
    if BatchSize(threads[0]) > 0 {
      k := 0;
    } else {
      k := SomeBatch(threads[1..]);
      k := k + 1;
    }
  }

  ghost predicate ProductiveRun(s: State, actions: seq<Action>, passes: Check -> bool)
    requires Inv(s, passes)
    decreases |actions|
  {
    actions != [] ==>
      && Productive(s, actions[0])
      && (StepKeeps(s, actions[0], passes); ProductiveRun(Step(s, actions[0], passes), actions[1..], passes))
  }

  /** However the threads are scheduled, productive steps run out. */
  lemma {:induction false} WaitTerminates(s: State, actions: seq<Action>, passes: Check -> bool)
    requires Inv(s, passes) && ProductiveRun(s, actions, passes)
    ensures |actions| <= Measure(s)
    decreases |actions|
  {
    hide Inv, Step, Measure;
    if actions != [] {
      ProductiveDecreases(s, actions[0], passes);
      StepKeeps(s, actions[0], passes);
      WaitTerminates(Step(s, actions[0], passes), actions[1..], passes);
    }
  }

  /** A productive run is a run. */
  lemma {:induction false} ProductiveIsRun(s: State, actions: seq<Action>, passes: Check -> bool)
    requires Inv(s, passes) && ProductiveRun(s, actions, passes) && actions != []
    ensures Inv(Step(s, actions[0], passes), passes)
    ensures Run(s, actions, passes) == Run(Step(s, actions[0], passes), actions[1..], passes)
  {
    hide Inv, Step;
    StepKeeps(s, actions[0], passes);
  }

  /** Every run of productive steps that cannot be extended has the master out of Wait at its end,
      after no more steps than the measure allows. */
  lemma WaitReturns(s: State, actions: seq<Action>, passes: Check -> bool)
    requires Inv(s, passes) && ProductiveRun(s, actions, passes)
    requires forall a :: !Productive(Run(s, actions, passes), a)
    ensures |Run(s, actions, passes).threads| > 0 && Run(s, actions, passes).threads[0].Outside?
    ensures |actions| <= Measure(s)
  {
    hide Run, Step, Measure, Productive, ProductiveRun;
    WaitTerminates(s, actions, passes);
    var t := Run(s, actions, passes);
    if !t.threads[0].Outside? {
      var a := NeverStuck(t, passes);
    }
  }

  /** And from every reachable state there is such a run. */
  lemma {:induction false} WaitCanReturn(s: State, passes: Check -> bool) returns (actions: seq<Action>)
    requires Inv(s, passes)
    ensures ProductiveRun(s, actions, passes) && |Run(s, actions, passes).threads| > 0
    ensures Run(s, actions, passes).threads[0].Outside? && |actions| <= Measure(s)
    decreases Measure(s)
  {
    hide Step, Measure, Productive;
    if s.threads[0].Outside? {
      actions := [];
    } else {
      var a := NeverStuck(s, passes);
      ProductiveDecreases(s, a, passes);
      StepKeeps(s, a, passes);
      var rest := WaitCanReturn(Step(s, a, passes), passes);
      actions := [a] + rest;
      assert actions[1..] == rest;
      ProductiveIsRun(s, actions, passes);
    }
    WaitTerminates(s, actions, passes);
  }
}
