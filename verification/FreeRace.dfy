/** A race between one process's free and another's allocation that takes the driver past a common limit. */
module FreeRace {
  import opened Words
  import opened MapLaws
  import opened Rows
  import opened ProbeTable
  import opened Store
  import opened Refinement
  import opened Capacity
  import opened Usage
  import opened Protocol
  import opened Quota
  import opened Mirror
  import opened Holdings
  import opened Scenarios
  import opened Witnesses

  /** An orderly run from `sys` to `end` in which no check falls inside an allocation, under a limit of ten. */
  ghost predicate Keeps(sys: Sys, run: Run, end: Sys) {
    Leads(sys, run, end) && OrderlyRun(sys, run) && Serial(sys, run, 10)
  }

  lemma KeepsNext(sys: Sys, step: Step, sys': Sys, rest: Run, end: Sys)
    requires Moves(sys, step, sys') && Orderly(sys, step) && Uninterrupted(sys, step, 10)
    requires Keeps(sys', rest, end)
    ensures Keeps(sys, Then(step, rest), end)
  {
  }

  lemma KeepsNone(sys: Sys)
    requires Safe(sys)
    ensures Keeps(sys, Done, sys)
  {
  }

  lemma FirstHalf(sys: Sys, k0: Key, k1: Key) returns (one: Sys, two: Sys, three: Sys)
    requires k0 == KeyOf(0) && k1 == KeyOf(1) && Safe(sys) && sys.store == InitialStore(2, 2)
    requires Live(sys) == {k0, k1} && sys.procs[k0] == sys.procs[k1] == Newcomer(10, Idle)
    ensures Moves(sys, Check(k0, 6), one) && Moves(one, Grant(k0, 7, 100), two) && Moves(two, Register(k0), three)
    ensures Safe(three) && three.store == OneRecord(0)
    ensures one == Sys(sys.store, sys.procs[k0 := Newcomer(10, Approved(6))])
    ensures three.procs == sys.procs[k0 := AllocatedBy(Newcomer(10, Idle), 6, 7, 100, true)]
  {
    NothingUsed(2, 2, Live(sys));
    FirstRecord(0, map[100 := 7]);
    one, two := ApprovedAndGranted(sys, k0, 6, 7, 100);
    three := RegisterMoves(two, k0);
    AllocatedInSteps(sys.procs[k0], 6, 7, 100, true);
    SetTwice(sys.procs, k0, two.procs[k0], three.procs[k0]);
  }

  lemma FreshGrant(sys: Sys, k: Key, h: Word, addr: Word)
    requires Enabled(sys, Grant(k, h, addr)) && Recs(sys.store, k) == []
    requires sys.procs[k].driver == map[] && sys.procs[k].stale == map[]
    ensures Orderly(sys, Grant(k, h, addr))
  {
  }

  lemma HolderAfter(p: Proc)
    requires p == AllocatedBy(Newcomer(10, Idle), 6, 7, 100, true)
    ensures p == Proc(true, 10, Idle, map[100 := 7], map[7 := 6], map[], map[])
  {
  }

  lemma OthersHaveNone(sys: Sys, k0: Key, k1: Key, live: set<Key>)
    requires Safe(sys) && live == {k0, k1} && Recs(sys.store, k0) == [] && Recs(sys.store, k1) == []
    ensures Used(sys.store, live) == 0
  {
    UsedIsLedgerTotal(sys.store, live);
    SumMapZero(map k | k in live :: Recorded(sys.store, k));
  }

  lemma FreeBegins(sys: Sys, k0: Key, k1: Key) returns (four: Sys)
    requires k0 != k1 && Safe(sys) && Live(sys) == {k0, k1} && k1 in sys.procs
    requires sys.procs[k0].phase.Idle? && sys.procs[k0].host == map[100 := 7]
    requires Recs(sys.store, k0) == [Rec(100, 6)] && Recs(sys.store, k1) == []
    ensures Moves(sys, Unregister(k0, 7), four) && Safe(four) && Live(four) == {k0, k1}
    ensures four.procs == sys.procs[k0 := sys.procs[k0].(phase := Freeing(7))]
    ensures Recs(four.store, k0) == [] && Recs(four.store, k1) == []
  {
    four := UnregisterMoves(sys, k0, 7);
    LiveSet(sys, four, k0, four.procs[k0]);
    RemoveRefinesLedger(sys.store, map[100 := 7], k0, 7);
    RemoveIsolated(sys.store, map[100 := 7], k0, 7, k1);
    OnlySeven(Recs(sys.store, k0));
  }

  lemma OnlySeven(recs: seq<Rec>)
    requires recs == [Rec(100, 6)]
    ensures RemovedRecs(recs, map[100 := 7], 7) == []
  {
  }

  lemma OtherGranted(sys: Sys, k0: Key, k1: Key) returns (five: Sys, end: Sys)
    requires k0 != k1 && Safe(sys) && Live(sys) == {k0, k1} && sys.procs[k1] == Newcomer(10, Idle)
    requires Recs(sys.store, k0) == [] && Recs(sys.store, k1) == []
    ensures Moves(sys, Check(k1, 6), five) && Moves(five, Grant(k1, 9, 300), end) && Safe(end)
    ensures five == Sys(sys.store, sys.procs[k1 := Newcomer(10, Approved(6))])
    ensures end == Sys(sys.store, sys.procs[k1 := GrantedBy(Newcomer(10, Approved(6)), 9, 300)])
    ensures Live(end) == {k0, k1}
  {
    OthersHaveNone(sys, k0, k1, Live(sys));
    five, end := ApprovedAndGranted(sys, k1, 6, 9, 300);
    LiveSet(sys, end, k1, end.procs[k1]);
  }

  lemma GranteeIs()
    ensures GrantedBy(Newcomer(10, Approved(6)), 9, 300) ==
            Proc(true, 10, Granted(300, 6), map[300 := 9], map[9 := 6], map[], map[])
  {
  }

  lemma TwelveHeld(sys: Sys, k0: Key, k1: Key)
    requires k0 != k1 && Live(sys) == {k0, k1} && Recs(sys.store, k0) == [] && Recs(sys.store, k1) == []
    requires sys.procs[k0].driver == map[7 := 6] && sys.procs[k0].phase == Freeing(7)
    requires sys.procs[k1].driver == map[9 := 6] && sys.procs[k1].phase == Granted(300, 6)
    requires sys.procs[k0].unrecorded == sys.procs[k1].unrecorded == map[]
    ensures DriverTotal(sys) == 12 && UnrecordedTotal(sys) == 0 && LiveTotal(sys) == 6
  {
    OneEntry(map[7 := 6], 7, 6);
    OneEntry(map[9 := 6], 9, 6);
    SumMapZero(sys.procs[k0].unrecorded);
    TwoEntries(map k | k in Live(sys) :: SumMap(sys.procs[k].driver), k0, k1, 6, 6);
    TwoEntries(Commitments(sys), k0, k1, 0, 6);
    TwoEntries(map k | k in Live(sys) :: SumMap(sys.procs[k].unrecorded), k0, k1, 0, 0);
  }

  lemma OneEntry(m: map<Word, nat>, h: Word, b: nat)
    requires m == map[h := b]
    ensures SumMap(m) == b
  {
    SumMapAt(m, h);
    assert (m - {h}).Keys == {};
  }

  lemma TwoEntries(m: map<Key, nat>, k0: Key, k1: Key, x: nat, y: nat)
    requires k0 != k1 && m.Keys == {k0, k1} && m[k0] == x && m[k1] == y
    ensures SumMap(m) == x + y
  {
    SumMapAt(m, k0);
    SumMapAt(m - {k0}, k1);
    assert (m - {k0} - {k1}).Keys == {};
  }

  lemma RunOfFirstHalf(sys: Sys, k0: Key, one: Sys, two: Sys, three: Sys, rest: Run, end: Sys)
    requires Moves(sys, Check(k0, 6), one) && Moves(one, Grant(k0, 7, 100), two) && Moves(two, Register(k0), three)
    requires NothingPending(sys) && Orderly(one, Grant(k0, 7, 100)) && Keeps(three, rest, end)
    ensures Keeps(sys, Allocation(k0, 6, 7, 100, rest), end)
  {
    KeepsNext(two, Register(k0), three, rest, end);
    KeepsNext(one, Grant(k0, 7, 100), two, Then(Register(k0), rest), end);
    KeepsNext(sys, Check(k0, 6), one, Then(Grant(k0, 7, 100), Then(Register(k0), rest)), end);
  }

  lemma RunOfSecondHalf(sys: Sys, k0: Key, k1: Key, four: Sys, five: Sys, end: Sys) returns (run: Run)
    requires Moves(sys, Unregister(k0, 7), four) && Moves(four, Check(k1, 6), five)
    requires Moves(five, Grant(k1, 9, 300), end) && Safe(end)
    requires NothingPending(four) && Orderly(five, Grant(k1, 9, 300))
    ensures Keeps(sys, run, end)
  {
    KeepsNone(end);
    KeepsNext(five, Grant(k1, 9, 300), end, Done, end);
    KeepsNext(four, Check(k1, 6), five, Then(Grant(k1, 9, 300), Done), end);
    run := Then(Unregister(k0, 7), Then(Check(k1, 6), Then(Grant(k1, 9, 300), Done)));
    KeepsNext(sys, Unregister(k0, 7), four, run.rest, end);
  }

  lemma BothQuiet(sys: Sys, k0: Key, k1: Key)
    requires Live(sys) == {k0, k1} && Pending(sys.procs[k0]) == 0 && Pending(sys.procs[k1]) == 0
    ensures NothingPending(sys)
  {
  }

  lemma SecondHalfFacts(sys: Sys, four: Sys, five: Sys, end: Sys, k0: Key, k1: Key)
    requires k0 != k1 && k0 in sys.procs && k1 in sys.procs && Live(four) == {k0, k1} == Live(end)
    requires sys.procs[k0] == AllocatedBy(Newcomer(10, Idle), 6, 7, 100, true)
    requires sys.procs[k1] == Newcomer(10, Idle)
    requires four.procs == sys.procs[k0 := sys.procs[k0].(phase := Freeing(7))]
    requires five == Sys(four.store, four.procs[k1 := Newcomer(10, Approved(6))])
    requires end == Sys(four.store, four.procs[k1 := GrantedBy(Newcomer(10, Approved(6)), 9, 300)])
    requires Recs(four.store, k0) == [] && Recs(four.store, k1) == []
    requires Enabled(five, Grant(k1, 9, 300))
    ensures NothingPending(four) && Orderly(five, Grant(k1, 9, 300))
    ensures LiveTotal(end) == 6 && DriverTotal(end) == 12 && UnrecordedTotal(end) == 0
  {
    HolderAfter(sys.procs[k0]);
    BothQuiet(four, k0, k1);
    FreshGrant(five, k1, 9, 300);
    GranteeIs();
    TwelveHeld(end, k0, k1);
  }

  lemma FirstHalfFacts(sys: Sys, one: Sys, three: Sys, k0: Key, k1: Key)
    requires k0 == KeyOf(0) && k1 == KeyOf(1) && sys.store == InitialStore(2, 2)
    requires Live(sys) == {k0, k1} && sys.procs[k0] == sys.procs[k1] == Newcomer(10, Idle)
    requires one == Sys(sys.store, sys.procs[k0 := Newcomer(10, Approved(6))])
    requires three.store == OneRecord(0) && WF(three.store)
    requires three.procs == sys.procs[k0 := AllocatedBy(Newcomer(10, Idle), 6, 7, 100, true)]
    requires Enabled(one, Grant(k0, 7, 100))
    ensures NothingPending(sys) && Orderly(one, Grant(k0, 7, 100))
    ensures Live(three) == {k0, k1} && three.procs[k1] == Newcomer(10, Idle)
    ensures Recs(three.store, k0) == [Rec(100, 6)] && Recs(three.store, k1) == []
  {
    BothQuiet(sys, k0, k1);
    FirstRecord(0, map[]);
    FreshGrant(one, k0, 7, 100);
    HolderAfter(three.procs[k0]);
    LiveSet(sys, three, k0, three.procs[k0]);
    OneChain(0);
    OtherRecord(map[]);
  }

  /** The race from the moment the first process has recorded. */
  lemma RaceOn(sys: Sys, k0: Key, k1: Key) returns (run: Run, end: Sys)
    requires k0 != k1 && Safe(sys) && Live(sys) == {k0, k1}
    requires sys.procs[k0] == AllocatedBy(Newcomer(10, Idle), 6, 7, 100, true)
    requires sys.procs[k1] == Newcomer(10, Idle)
    requires Recs(sys.store, k0) == [Rec(100, 6)] && Recs(sys.store, k1) == []
    ensures Keeps(sys, run, end)
    ensures LiveTotal(end) == 6 && DriverTotal(end) == 12 && UnrecordedTotal(end) == 0
  {
    HolderAfter(sys.procs[k0]);
    var four := FreeBegins(sys, k0, k1);
    var five, last := OtherGranted(four, k0, k1);
    end := last;
    SecondHalfFacts(sys, four, five, end, k0, k1);
    run := RunOfSecondHalf(sys, k0, k1, four, five, end);
  }

  lemma RaceFromRest(sys: Sys, k0: Key, k1: Key) returns (run: Run, end: Sys)
    requires k0 == KeyOf(0) && k1 == KeyOf(1) && Safe(sys) && sys.store == InitialStore(2, 2)
    requires Live(sys) == {k0, k1} && sys.procs[k0] == sys.procs[k1] == Newcomer(10, Idle)
    ensures Keeps(sys, run, end)
    ensures LiveTotal(end) == 6 && DriverTotal(end) == 12 && UnrecordedTotal(end) == 0
  {
    var one, two, three := FirstHalf(sys, k0, k1);
    FirstHalfFacts(sys, one, three, k0, k1);
    var rest, last := RaceOn(three, k0, k1);
    end := last;
    RunOfFirstHalf(sys, k0, one, two, three, rest, end);
    run := Allocation(k0, 6, 7, 100, rest);
  }

  /**
   * An orderly run in which no check falls inside an allocation, so that the ledger stays within the common limit
   * of ten, but one falls inside a free; after it the driver holds twelve bytes, none of them unrecorded.
   */
  lemma FreeLetsDriverPass() returns (run: Run, end: Sys)
    ensures FromStart(2, 2, run) && Reached(2, 2, run) == end
    ensures OrderlyRun(Initial(2, 2), run) && Serial(Initial(2, 2), run, 10)
    ensures LiveTotal(end) == 6 && DriverTotal(end) == 12 && UnrecordedTotal(end) == 0
  {
    var k0, k1 := KeyOf(0), KeyOf(1);
    var sys0, sys1, sys2 := BothStarted();
    var rest, last := RaceFromRest(sys2, k0, k1);
    end := last;
    run := Then(Start(k0, 10), Then(Start(k1, 10), rest));
    KeepsNext(sys1, Start(k1, 10), sys2, rest, end);
    KeepsNext(sys0, Start(k0, 10), sys1, Then(Start(k1, 10), rest), end);
  }
}
