/** Inputs at which the address manager does not do what one might expect. */
module AddrWitness {
  import opened AddrBook
  import opened AddrSteps
  import opened AddrRuns
  import C = AddrCheck

  /** All addresses in one cell. */
  function OneCell(): Hashing
  {
    Hashing(_ => 0, _ => 0, (_, _) => 0, (_, _) => 0, (_, _) => 0, (_, _, _) => 0)
  }

  const NOW: nat := 1000000000
  const SOURCE := NetAddr(0)

  function Peer(ip: nat): Address { Address(Service(NetAddr(ip), 8333), {}, NOW) }

  /** The manager after its first address. */
  function One(): (s: Book)
    ensures Consistent(s)
  {
    NewBookValid(OneCell());
    AddKeeps(NewBook(OneCell()), Peer(1), SOURCE, 0, true, 0, NOW);
    Add(NewBook(OneCell()), Peer(1), SOURCE, 0, true, 0, NOW).0
  }

  lemma OneIs()
    ensures One().table[0][0] == 0 && 0 in One().info && One().hash == OneCell()
    ensures One().info[0] == AddrInfo(Peer(1), SOURCE, 0, 0, 0, 0, 1, false, 0)
    ensures One().addr == map[NetAddr(1) := 0]
    ensures Valid(One())
  {
    hide Add, Valid, NewSlots, RefCounts, TriedSlots, AddrIndex, RandomIndex, IdsBelow, Placed, NewIds, TriedIds;
    var s := NewBook(OneCell());
    NewBookValid(OneCell());
    AddTimes(s, Peer(1), SOURCE, 0, true, 0, NOW);
    FirstPlaced();
  }

  /** The first address takes the one cell. */
  lemma FirstPlaced()
    ensures Consistent(NewBook(OneCell()))
    ensures var t := Add(NewBook(OneCell()), Peer(1), SOURCE, 0, true, 0, NOW).0;
      && Shape(t.table, NEW_BUCKET_COUNT) && t.table[0][0] == 0 && t.hash == OneCell() && t.addr == map[NetAddr(1) := 0]
      && 0 in t.info && t.info[0] == AddrInfo(Peer(1), SOURCE, 0, 0, 0, 0, 1, false, 0)
  {
    hide Valid, NewSlots, RefCounts, TriedSlots, AddrIndex, RandomIndex, IdsBelow, Placed, NewIds, TriedIds;
    hide Structure, Place, Welcome, ClearNew;
    var s := NewBook(OneCell());
    NewBookValid(OneCell());
    C.ValidConsistent(s);
    WelcomeKeeps(s, Peer(1), SOURCE, 0);
    Newcomer();
    var u := Welcome(s, Peer(1), SOURCE, 0);
    IntoEmptyCell(u);
  }

  lemma Newcomer()
    ensures var u := Welcome(NewBook(OneCell()), Peer(1), SOURCE, 0);
      && 0 in u.info && u.info[0] == AddrInfo(Peer(1), SOURCE, 0, 0, 0, 0, 0, false, 0) && u.addr ==
            map[NetAddr(1) := 0]
      && u.table == EmptyTable(NEW_BUCKET_COUNT) && u.hash == OneCell()
  {
    hide EmptyTable;
  }

  lemma IntoEmptyCell(u: Book)
    requires Structure(u, {0}) && u.hash == OneCell() && u.table == EmptyTable(NEW_BUCKET_COUNT)
    requires 0 in u.info && u.info[0] == AddrInfo(Peer(1), SOURCE, 0, 0, 0, 0, 0, false, 0)
    ensures Place(u, 0, SOURCE, NOW) == Refer(u, 0, 0)
  {
    hide NewSlots, RefCounts, TriedSlots, AddrIndex, RandomIndex, IdsBelow, Placed;
    StructureParts(u, {0});
    assert u.table[0][0] == EMPTY;
  }

  /** Announced as new and not remembered: its cell is taken by an address that is not terrible. */
  lemma AddForgets()
    ensures var r := Add(One(), Peer(2), SOURCE, 0, true, 0, NOW);
      r.1 && !HasRoom(One(), Peer(2).service, SOURCE, NOW) && !Knows(r.0, Peer(2).service)
  {
    hide Add, One;
    OneIs();
    AddRemembers(One(), Peer(2), SOURCE, 0, 0, NOW);
  }

  /** Reporting a success at time zero, or an attempt at a negative time, spoils the recorded times. */
  lemma TimesSpoilt()
    ensures Valid(One()) && !Valid(Good(One(), Peer(1).service, 0))
    ensures !Valid(Attempt(One(), Peer(1).service, false, -1))
  {
    hide Good, Attempt, One, Valid;
    OneIs();
    GoodTimes(One(), Peer(1).service, 0);
    StatisticsKeep(One(), Peer(1).service, false, -1, {});
    TimesNeeded(One());
    TimesNeeded(Attempt(One(), Peer(1).service, false, -1));
  }

  lemma TimesNeeded(s: Book)
    ensures Valid(s) ==> Times(s.info) && Consistent(s)
  {
    hide Times, Consistent;
  }

  /** An address that leads to no record of its own goes unnoticed by the debug routine. */
  lemma StrayEntryUnnoticed()
    ensures var s := One().(addr := One().addr[NetAddr(2) := 0]);
      && Shape(s.table, NEW_BUCKET_COUNT) && C.Checked(s) && !Valid(s)
  {
    hide One, C.Checked;
    OneIs();
    var s := One().(addr := One().addr[NetAddr(2) := 0]);
    C.ValidChecked(One());
    SameTests(One(), s);
    C.ValidIffChecked(s);
    assert s.info[s.addr[NetAddr(2)]].Net() == NetAddr(1);
  }

  /** A record with id 0 that the address index does not list passes, because looking it up inserts 0. */
  lemma MissingEntryUnnoticed()
    ensures var s := One().(addr := map[]);
      && Shape(s.table, NEW_BUCKET_COUNT) && C.Checked(s) && !Valid(s)
  {
    hide One, C.Checked;
    OneIs();
    var s := One().(addr := map[]);
    C.ValidChecked(One());
    OnlyRecord();
    SameTests(One(), s);
    C.ValidIffChecked(s);
    assert s.info[0].Net() !in s.addr;
  }

  /** The counter of ids is not looked at: here it would give the id of the record once more. */
  lemma CounterUnnoticed()
    ensures var s := One().(idCount := 0);
      && Shape(s.table, NEW_BUCKET_COUNT) && C.Checked(s) && !Valid(s)
  {
    hide One, C.Checked;
    OneIs();
    var s := One().(idCount := 0);
    C.ValidChecked(One());
    SameTests(One(), s);
    C.ValidIffChecked(s);
    assert !IdsBelow(s.info, s.idCount);
  }

  lemma OnlyRecord()
    ensures forall n :: n in One().info ==> n == 0
  {
    hide One;
    OneIs();
    C.ValidChecked(One());
    assert C.Unchecked(One());
  }

  lemma SameTests(s: Book, t: Book)
    requires Shape(s.table, NEW_BUCKET_COUNT) && C.Checked(s) && t == s.(addr := t.addr, idCount := t.idCount)
    requires forall n :: n in s.info ==> C.Lookup(t.addr, s.info[n].Net()) == C.Lookup(s.addr, s.info[n].Net())
    ensures C.Checked(t)
  {
    hide NewSlots, TriedSlots, C.CountsExact, C.Lookup;
    forall n | n in t.info ensures C.RecordOk(t.info, t.addr, t.random, n) {
      assert C.RecordOk(s.info, s.addr, s.random, n);
    }
  }
}
