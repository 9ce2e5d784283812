/** Reachable states in which a property fails that the program is meant to have. */
module Witnesses {
  import opened Words
  import opened Slots
  import opened Rows
  import opened ProbeTable
  import opened Chains
  import opened Store
  import opened Refinement
  import opened Capacity
  import opened Usage
  import opened UsageWalk
  import opened ReRegistration
  import opened HeadRemoval
  import opened Protocol
  import opened Quota
  import opened Mirror
  import opened Scenarios

  // One process, two rows, two slots, an allocation of six bytes and then one of four, under a limit of ten.

  /** A key whose first probe in a table of two rows is the given row. */
  function KeyOf(row: nat): Key
    requires row < 2
  {
    Key(1, row)
  }

  function OneRecord(row: nat): Store
    requires row < 2
  {
    Store([INITIAL_ROW, INITIAL_ROW][row := RNode(KeyOf(row), 0, Exist)], [GMem(100, 6, -1), INITIAL_SLOT])
  }

  function TwoRecords(row: nat): Store
    requires row < 2
  {
    Store([INITIAL_ROW, INITIAL_ROW][row := RNode(KeyOf(row), 0, Exist)], [GMem(100, 6, 1), GMem(200, 4, -1)])
  }

  lemma FirstRecord(row: nat, host: Host)
    requires row < 2
    ensures WF(InitialStore(2, 2)) && Room(InitialStore(2, 2).t, KeyOf(row))
    ensures Recs(InitialStore(2, 2), KeyOf(row)) == []
    ensures Add(InitialStore(2, 2), host, KeyOf(row), 100, 6) == OneRecord(row)
  {
    var st, k := InitialStore(2, 2), KeyOf(row);
    InitialOK(2, 2);
    assert Probe(k, 2, 0) == row;
    EnterKeeps(st, k);
    var e := Store(Entered(st.t, k), st.s);
    assert ChainAt(e, row) == [];
    assert FirstEmpty(st.s) == 0;
    var s1 := st.s[0 := GMem(100, 6, -1)];
    assert Stored(e, row, host, 100, 6) == (s1, 0);
    assert OneRecord(row).t == e.t[row := e.t[row].SetRecEntry(0)];
    assert OneRecord(row).s == s1;
  }

  lemma OneChain(row: nat)
    requires row < 2
    requires WF(OneRecord(row))
    ensures Find(OneRecord(row).t, KeyOf(row)) == row
    ensures ChainAt(OneRecord(row), row) == [0] && Recs(OneRecord(row), KeyOf(row)) == [Rec(100, 6)]
  {
    var st := OneRecord(row);
    FindRefinesLookup(st.t, KeyOf(row), row);
    assert LinkOK(st.s, [0], 0);
    ChainFound(st.s, 0, [0]);
    assert Records(st.s, [0]) == [Rec(100, 6)];
  }

  lemma SecondRecord(row: nat, host: Host)
    requires row < 2 && Deref(host, 100) != Deref(host, 200)
    requires WF(OneRecord(row))
    ensures Room(OneRecord(row).t, KeyOf(row)) && PosOf(OneRecord(row), host, KeyOf(row), Deref(host, 200)) == -1
    ensures FirstEmpty(OneRecord(row).s) != -1
    ensures Add(OneRecord(row), host, KeyOf(row), 200, 4) == TwoRecords(row)
  {
    var st, k := OneRecord(row), KeyOf(row);
    OneChain(row);
    EnterKeeps(st, k);
    assert !st.s[0].Empty() && st.s[1].Empty();
    assert FirstEmpty(st.s) == 1;
    var s1 := st.s[1 := GMem(200, 4, -1)];
    assert Stored(st, row, host, 200, 4) == (s1, 1);
    assert LinkOK(s1, [0], 0);
    ChainFound(s1, 0, [0]);
    assert TwoRecords(row).s == s1[0 := s1[0].SetNext(1)];
  }

  lemma TwoChain(row: nat)
    requires row < 2 && WF(TwoRecords(row))
    ensures Find(TwoRecords(row).t, KeyOf(row)) == row
    ensures Recs(TwoRecords(row), KeyOf(row)) == [Rec(100, 6), Rec(200, 4)]
    ensures Recorded(TwoRecords(row), KeyOf(row)) == 10
  {
    var st := TwoRecords(row);
    FindRefinesLookup(st.t, KeyOf(row), row);
    assert LinkOK(st.s, [0, 1], 0) && LinkOK(st.s, [0, 1], 1);
    ChainFound(st.s, 0, [0, 1]);
    assert Records(st.s, [0, 1]) == [Rec(100, 6), Rec(200, 4)];
    SumAppend([Rec(100, 6)], [Rec(200, 4)]);
    assert [Rec(100, 6)] + [Rec(200, 4)] == [Rec(100, 6), Rec(200, 4)];
  }

  function Allocation(k: Key, bytes: Word, h: Word, addr: Word, rest: Run): Run {
    Then(Check(k, bytes), Then(Grant(k, h, addr), Then(Register(k), rest)))
  }

  function TwoAllocations(k: Key): Run {
    Then(Start(k, 10), Allocation(k, 6, 7, 100, Allocation(k, 4, 8, 200, Done)))
  }

  lemma AppendAllocation(k: Key, bytes: Word, h: Word, addr: Word, rest: Run)
    ensures Append(Allocation(k, bytes, h, addr, Done), rest) == Allocation(k, bytes, h, addr, rest)
  {
    assert Append(Then(Register(k), Done), rest) == Then(Register(k), rest);
  }

  /** One more allocation, of a fresh handle into a free slot. */
  lemma Allocate(sys: Sys, k: Key, bytes: Word, h: Word, addr: Word, st': Store, live: set<Key>) returns (end: Sys)
    requires Safe(sys) && k in sys.procs && Live(sys) == live && k in live && sys.procs[k].phase.Idle?
    requires Used(sys.store, live) + bytes <= sys.procs[k].limit
    requires addr != 0 && Room(sys.store.t, k) && FirstEmpty(sys.store.s) != -1
    requires PosOf(sys.store, sys.procs[k].host[addr := h], k, h) == -1
    requires Add(sys.store, sys.procs[k].host[addr := h], k, addr, bytes) == st'
    ensures Leads(sys, Allocation(k, bytes, h, addr, Done), end) && Safe(end)
    ensures end.store == st' && end.procs == sys.procs[k := AllocatedBy(sys.procs[k], bytes, h, addr, true)]
    ensures Used(st', live) == Used(sys.store, live) + bytes
    ensures Live(end) == live && end.procs[k].phase.Idle? && end.procs[k].limit == sys.procs[k].limit
    ensures end.procs[k].host == sys.procs[k].host[addr := h]
  {
    end := WholeAllocation(sys, k, bytes, h, addr);
    RoundTripUsage(sys.store, sys.procs[k].host[addr := h], k, addr, bytes, live);
    AllocatedProc(sys.procs[k], bytes, h, addr);
    LiveSet(sys, end, k, end.procs[k]);
  }

  lemma AllocatedProc(p: Proc, bytes: Word, h: Word, addr: Word)
    requires p.phase.Idle?
    ensures var q := AllocatedBy(p, bytes, h, addr, true);
            q.alive == p.alive && q.limit == p.limit && q.phase == Idle && q.host == p.host[addr := h]
  {
  }

  /** The state after the two allocations is reachable. */
  lemma TwoAllocated(row: nat, k: Key) returns (run: Run, end: Sys)
    requires row < 2 && k == KeyOf(row)
    ensures FromStart(2, 2, run) && Reached(2, 2, run) == end
    ensures Safe(end) && end.store == TwoRecords(row)
    ensures Live(end) == {k} && end.procs[k].phase.Idle? && end.procs[k].limit == 10
    ensures Used(end.store, {k}) == 10 && Deref(end.procs[k].host, 100) == 7
  {
    var p := Newcomer(10, Idle);
    var sys0 := Initial(2, 2);
    InitialSafe(2, 2);
    var sys1 := Sys(sys0.store, sys0.procs[k := p]);
    StartMoves(sys0, k, 10);
    MovesKeep(sys0, Start(k, 10), sys1);
    NothingUsed(2, 2, {k});
    FirstRecord(row, p.host[100 := 7]);
    var sys2 := Allocate(sys1, k, 6, 7, 100, OneRecord(row), {k});
    var p2 := sys2.procs[k];
    SecondRecord(row, p2.host[200 := 8]);
    end := Allocate(sys2, k, 4, 8, 200, TwoRecords(row), {k});
    run := TwoAllocations(k);
    LeadsAppend(sys1, Allocation(k, 6, 7, 100, Done), sys2, Allocation(k, 4, 8, 200, Done), end);
    AppendAllocation(k, 6, 7, 100, Allocation(k, 4, 8, 200, Done));
    LeadsNext(sys0, Start(k, 10), sys1, run.rest, end);
  }

  /** A run after which the usage count as written never returns: the walk of row 0 goes round slot 1 for ever. */
  lemma CountNeverReturns() returns (run: Run, sys: Sys)
    ensures FromStart(2, 2, run) && Reached(2, 2, run) == sys
    ensures |sys.store.t| == 2 && |sys.store.s| == 2
    ensures Counted(sys.store, Live(sys), 0) && !WalkEnds(sys.store, 0)
  {
    run, sys := TwoAllocated(0, KeyOf(0));
    WalkEndsExact(sys.store, 0);
  }

  /**
   * A run after which the usage count as written returns six where ten bytes are recorded, and a process at its
   * limit of ten is approved for four more.
   */
  lemma CountAdmitsPastLimit() returns (run: Run, sys: Sys, k: Key)
    ensures FromStart(2, 2, run) && Reached(2, 2, run) == sys
    ensures k in Live(sys) && sys.procs[k].phase.Idle? && sys.procs[k].limit == 10 && Recorded(sys.store, k) == 10
    ensures |sys.store.t| == 2
    ensures forall i :: 0 <= i < 2 && Counted(sys.store, Live(sys), i) ==> EndsAtOnce(sys.store, i)
    ensures HeadsUpTo(sys.store, Live(sys), 2) == 6
    ensures Checked(sys.procs[k], 6, 4).phase == Approved(4)
  {
    k := KeyOf(1);
    run, sys := TwoAllocated(1, k);
    TwoChain(1);
    FirstRowOfTwo(sys.store, Live(sys));
  }

  /** A run after which a request of 2^64 - 5 bytes passes the check of a process at its limit of ten. */
  lemma WrappedRequestApproved() returns (run: Run, sys: Sys, k: Key)
    ensures FromStart(2, 2, run) && Reached(2, 2, run) == sys
    ensures k in Live(sys) && sys.procs[k].phase.Idle? && sys.procs[k].limit == 10
    ensures Used(sys.store, Live(sys)) == 10
    ensures Checked(sys.procs[k], 10, U64 - 5).phase == Approved(U64 - 5)
  {
    k := KeyOf(1);
    run, sys := TwoAllocated(1, k);
    ModIs(10 + (U64 - 5), U64, 1, 5);
  }

  lemma FirstRowOfTwo(st: Store, live: set<Key>)
    requires st == TwoRecords(1) && live == {KeyOf(1)}
    ensures HeadsUpTo(st, live, 2) == 6
    ensures forall i :: 0 <= i < 2 && Counted(st, live, i) ==> EndsAtOnce(st, i)
  {
    assert HeadsUpTo(st, live, 1) == 0;
    assert HeadBytes(st, 1) == 6;
  }

  lemma TwoLeaks(st: Store, host: Host, k: Key)
    requires WF(st) && NoLeak(st) && |Recs(st, k)| == 2 && Recs(st, k)[0].ptr == 100 && Deref(host, 100) == 7
    ensures PosOf(st, host, k, 7) == 0 && !NoLeak(RemoveAsWritten(st, host, k, 7))
  {
    FirstIsSeven(Recs(st, k), host);
    RemoveAsWrittenLeaks(st, host, k, 7);
  }

  /** After two allocations, freeing the first handle as written leaks the second record's slot. */
  lemma HeadRemovalLeaks() returns (run: Run, sys: Sys, k: Key)
    ensures FromStart(2, 2, run) && Reached(2, 2, run) == sys && k in Live(sys)
    ensures WF(sys.store) && PosOf(sys.store, sys.procs[k].host, k, 7) == 0
    ensures NoLeak(sys.store) && !NoLeak(RemoveAsWritten(sys.store, sys.procs[k].host, k, 7))
  {
    k := KeyOf(0);
    run, sys := TwoAllocated(0, k);
    TwoChain(0);
    TwoLeaks(sys.store, sys.procs[k].host, k);
  }

  lemma FirstIsSeven(recs: seq<Rec>, host: Host)
    requires recs != [] && recs[0].ptr == 100 && Deref(host, 100) == 7
    ensures FindRec(host, recs, 7) == 0
  {
  }

  // Two processes with a common limit of ten, six bytes recorded by the first and four by the second.

  function Apiece(): Store {
    Store([RNode(KeyOf(0), 0, Exist), RNode(KeyOf(1), 1, Exist)], [GMem(100, 6, -1), GMem(200, 4, -1)])
  }

  lemma OtherRecord(host: Host)
    requires WF(OneRecord(0))
    ensures Room(OneRecord(0).t, KeyOf(1)) && Recs(OneRecord(0), KeyOf(1)) == []
    ensures FirstEmpty(OneRecord(0).s) != -1
    ensures Add(OneRecord(0), host, KeyOf(1), 200, 4) == Apiece()
  {
    var st, k := OneRecord(0), KeyOf(1);
    FindRefinesLookup(st.t, k, -1);
    assert Probe(k, 2, 0) == 1;
    EnterKeeps(st, k);
    var e := Store(Entered(st.t, k), st.s);
    assert ChainAt(e, 1) == [];
    assert !st.s[0].Empty() && st.s[1].Empty();
    assert FirstEmpty(st.s) == 1;
    var s1 := st.s[1 := GMem(200, 4, -1)];
    assert Stored(e, 1, host, 200, 4) == (s1, 1);
    assert Apiece().t == e.t[1 := e.t[1].SetRecEntry(1)];
    assert Apiece().s == s1;
  }

  lemma BothStarted() returns (sys0: Sys, sys1: Sys, sys2: Sys)
    ensures sys0 == Initial(2, 2)
    ensures Moves(sys0, Start(KeyOf(0), 10), sys1) && Moves(sys1, Start(KeyOf(1), 10), sys2)
    ensures Safe(sys2) && sys2.store == InitialStore(2, 2) && Live(sys2) == {KeyOf(0), KeyOf(1)}
    ensures sys2.procs[KeyOf(0)] == sys2.procs[KeyOf(1)] == Newcomer(10, Idle)
  {
    var p := Newcomer(10, Idle);
    sys0 := Initial(2, 2);
    InitialSafe(2, 2);
    sys1 := Sys(sys0.store, sys0.procs[KeyOf(0) := p]);
    StartMoves(sys0, KeyOf(0), 10);
    MovesKeep(sys0, Start(KeyOf(0), 10), sys1);
    sys2 := Sys(sys1.store, sys1.procs[KeyOf(1) := p]);
    StartMoves(sys1, KeyOf(1), 10);
    MovesKeep(sys1, Start(KeyOf(1), 10), sys2);
  }

  lemma FirstOfTwo(sys: Sys) returns (end: Sys)
    requires Safe(sys) && sys.store == InitialStore(2, 2) && Live(sys) == {KeyOf(0), KeyOf(1)}
    requires sys.procs[KeyOf(0)] == sys.procs[KeyOf(1)] == Newcomer(10, Idle)
    ensures Leads(sys, Allocation(KeyOf(0), 6, 7, 100, Done), end) && Safe(end)
    ensures end.store == OneRecord(0) && Live(end) == Live(sys) && Used(end.store, Live(end)) == 6
    ensures end.procs == sys.procs[KeyOf(0) := AllocatedBy(Newcomer(10, Idle), 6, 7, 100, true)]
    ensures end.procs[KeyOf(0)].host == map[100 := 7] && end.procs[KeyOf(0)].phase.Idle?
  {
    NothingUsed(2, 2, Live(sys));
    FirstRecord(0, sys.procs[KeyOf(0)].host[100 := 7]);
    end := Allocate(sys, KeyOf(0), 6, 7, 100, OneRecord(0), Live(sys));
  }

  /** The state in which both have recorded is reachable. */
  lemma BothAllocated() returns (run: Run, end: Sys)
    ensures FromStart(2, 2, run) && Reached(2, 2, run) == end
    ensures Safe(end) && end.store == Apiece() && Live(end) == {KeyOf(0), KeyOf(1)}
    ensures end.procs[KeyOf(0)].host == map[100 := 7] && end.procs[KeyOf(1)].host == map[200 := 8]
  {
    var k0, k1 := KeyOf(0), KeyOf(1);
    var sys0, sys1, sys2 := BothStarted();
    var sys3 := FirstOfTwo(sys2);
    OtherRecord(sys3.procs[k1].host[200 := 8]);
    end := Allocate(sys3, k1, 4, 8, 200, Apiece(), Live(sys3));
    run := Then(Start(k0, 10), Then(Start(k1, 10), Allocation(k0, 6, 7, 100, Allocation(k1, 4, 8, 200, Done))));
    LeadsAppend(sys2, Allocation(k0, 6, 7, 100, Done), sys3, Allocation(k1, 4, 8, 200, Done), end);
    AppendAllocation(k0, 6, 7, 100, Allocation(k1, 4, 8, 200, Done));
    LeadsNext(sys1, Start(k1, 10), sys2, run.rest.rest, end);
    LeadsNext(sys0, Start(k0, 10), sys1, run.rest, end);
  }

  lemma ApieceChains(st: Store)
    requires st == Apiece() && WF(st)
    ensures Find(st.t, KeyOf(0)) == 0 && Find(st.t, KeyOf(1)) == 1
    ensures ChainAt(st, 0) == [0] && ChainAt(st, 1) == [1]
    ensures Recs(st, KeyOf(0)) == [Rec(100, 6)] && Recs(st, KeyOf(1)) == [Rec(200, 4)]
  {
    FindRefinesLookup(st.t, KeyOf(0), 0);
    FindRefinesLookup(st.t, KeyOf(1), 1);
    assert LinkOK(st.s, [0], 0) && LinkOK(st.s, [1], 0);
    ChainFound(st.s, 0, [0]);
    ChainFound(st.s, 1, [1]);
    assert Records(st.s, [0]) == [Rec(100, 6)] && Records(st.s, [1]) == [Rec(200, 4)];
  }

  /** After the first process frees its only handle as written, the second's next record makes the rows share a slot. */
  lemma RowsShareSlot() returns (run: Run, sys: Sys, host2: Host)
    ensures FromStart(2, 2, run) && Reached(2, 2, run) == sys
    ensures KeyOf(0) in Live(sys) && KeyOf(1) in Live(sys)
    ensures WF(sys.store) && PosOf(sys.store, sys.procs[KeyOf(0)].host, KeyOf(0), 7) == 0
    ensures var e := RemoveAsWritten(sys.store, sys.procs[KeyOf(0)].host, KeyOf(0), 7);
            && InUse(e, 1) && RowChainOK(e, 1)
            && var st2 := AddAt(e, 1, host2, 300, 2);
               InUse(st2, 0) && InUse(st2, 1) && !Apart(st2, 0, 1)
  {
    run, sys := BothAllocated();
    host2 := map[200 := 8, 300 := 9];
    ApieceChains(sys.store);
    var host := sys.procs[KeyOf(0)].host;
    HeadRow(sys.store, host, KeyOf(0), 7);
    FreedHeadShared(sys.store, host, KeyOf(0), 7, 1, host2, 300, 2);
    assert RemoveAsWritten(sys.store, host, KeyOf(0), 7).s[0].Empty();
  }

  /** When a slot before it is free already, a process that freed its only handle as written can record no more. */
  lemma NextRecordRunsOff() returns (run: Run, sys: Sys, st: Store)
    ensures FromStart(2, 2, run) && Reached(2, 2, run) == sys
    ensures KeyOf(0) in Live(sys) && KeyOf(1) in Live(sys)
    ensures WF(sys.store) && st == Remove(sys.store, sys.procs[KeyOf(0)].host, KeyOf(0), 7)
    ensures WF(st) && PosOf(st, sys.procs[KeyOf(1)].host, KeyOf(1), 8) == 0
    ensures var e := RemoveAsWritten(st, sys.procs[KeyOf(1)].host, KeyOf(1), 8);
            && FirstEmpty(e.s) == 0 && |e.t| == 2 && |e.s| == 2
            && TailFrom(e.s[0 := GMem(300, 2, -1)], e.t[1].entry, 2) == -1
  {
    run, sys := BothAllocated();
    ApieceChains(sys.store);
    var host0, host1 := sys.procs[KeyOf(0)].host, sys.procs[KeyOf(1)].host;
    st := Remove(sys.store, host0, KeyOf(0), 7);
    RemoveRefinesLedger(sys.store, host0, KeyOf(0), 7);
    RemoveIsolated(sys.store, host0, KeyOf(0), 7, KeyOf(1));
    assert st.s[0].Empty() by { RemoveChangesOneRow(sys.store, host0, KeyOf(0), 7); }
    OwnNextAllocation(st, host1, KeyOf(1), 8, 300, 2);
    HeadRow(st, host1, KeyOf(1), 8);
  }

  // One process, one row and no slot: the allocation cannot be recorded.

  function OneAllocation(): Run {
    Then(Start(A, 10), Allocation(A, 6, 7, 100, Done))
  }

  lemma OrderlyNext(sys: Sys, step: Step, sys': Sys, rest: Run)
    requires Moves(sys, step, sys') && Orderly(sys, step)
    requires Safe(sys') && Allowed(sys', rest) && OrderlyRun(sys', rest)
    ensures Allowed(sys, Then(step, rest)) && OrderlyRun(sys, Then(step, rest))
    ensures After(sys, Then(step, rest)) == After(sys', rest)
  {
  }

  lemma NoSlot(host: Host)
    ensures WF(InitialStore(1, 0)) && Room(InitialStore(1, 0).t, A) && Recs(InitialStore(1, 0), A) == []
    ensures Recs(Add(InitialStore(1, 0), host, A, 100, 6), A) == []
  {
    var st := InitialStore(1, 0);
    InitialOK(1, 0);
    assert Probe(A, 1, 0) == 0;
    FindRefinesLookup(st.t, A, -1);
    AddToFullSlab(st, host, A, 100, 6, A);
  }

  /** On a full slab an orderly run leaves the driver holding six bytes of which the ledger has nothing. */
  lemma FullSlabLeavesGap()
    ensures FromStart(1, 0, OneAllocation()) && OrderlyRun(Initial(1, 0), OneAllocation())
    ensures var sys := Reached(1, 0, OneAllocation());
            && A in sys.procs && sys.procs[A].phase.Idle?
            && sys.procs[A].driver == map[7 := 6] && Recs(sys.store, A) == []
            && sys.procs[A].unrecorded == map[7 := 6]
  {
    var sys0 := Initial(1, 0);
    InitialSafe(1, 0);
    var sys1 := Sys(sys0.store, map[A := Newcomer(10, Idle)]);
    StartMoves(sys0, A, 10);
    MovesKeep(sys0, Start(A, 10), sys1);
    NothingUsed(1, 0, Live(sys1));
    var p2 := Newcomer(10, Approved(6));
    var sys2 := Sys(sys1.store, sys1.procs[A := p2]);
    ApprovedMoves(sys1, A, 6);
    MovesKeep(sys1, Check(A, 6), sys2);
    var p3 := GrantedBy(p2, 7, 100);
    var sys3 := Sys(sys2.store, sys2.procs[A := p3]);
    NoSlot(p3.host);
    GrantMoves(sys2, A, 7, 100);
    MovesKeep(sys2, Grant(A, 7, 100), sys3);
    var sys4 := RegisterMoves(sys3, A);
    OrderlyNext(sys3, Register(A), sys4, Done);
    OrderlyNext(sys2, Grant(A, 7, 100), sys3, Then(Register(A), Done));
    OrderlyNext(sys1, Check(A, 6), sys2, Then(Grant(A, 7, 100), Then(Register(A), Done)));
    OrderlyNext(sys0, Start(A, 10), sys1, OneAllocation().rest);
  }
}
