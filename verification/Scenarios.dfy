/** How whole calls fit the protocol, and a race between two of them. */
module Scenarios {
  import opened Words
  import opened MapLaws
  import opened Rows
  import opened ProbeTable
  import opened Store
  import opened Refinement
  import opened Capacity
  import opened Usage
  import opened Protocol
  import opened Quota

  lemma NothingUsed(rows: nat, slots: nat, live: set<Key>)
    ensures WF(InitialStore(rows, slots)) && Used(InitialStore(rows, slots), live) == 0
  {
    var st := InitialStore(rows, slots);
    InitialOK(rows, slots);
    forall k ensures Recs(st, k) == [] {
      FindRefinesLookup(st.t, k, -1);
    }
    UsedIsLedgerTotal(st, live);
    SumMapZero(map k | k in live :: Recorded(st, k));
  }

  /** `run` can be taken from `sys` and ends in `end`. */
  ghost predicate Leads(sys: Sys, run: Run, end: Sys) {
    Safe(sys) && Allowed(sys, run) && After(sys, run) == end
  }

  ghost predicate Moves(sys: Sys, step: Step, sys': Sys) {
    Safe(sys) && Enabled(sys, step) && Apply(sys, step) == sys'
  }

  lemma LeadsNext(sys: Sys, step: Step, sys': Sys, rest: Run, end: Sys)
    requires Moves(sys, step, sys') && Leads(sys', rest, end)
    ensures Leads(sys, Then(step, rest), end)
  {
  }

  lemma LeadsOne(sys: Sys, step: Step, end: Sys)
    requires Moves(sys, step, end)
    ensures Leads(sys, Then(step, Done), end)
  {
    StepSafe(sys, step);
  }

  lemma MovesKeep(sys: Sys, step: Step, sys': Sys)
    requires Moves(sys, step, sys')
    ensures Safe(sys')
  {
    StepSafe(sys, step);
  }

  lemma StartMoves(sys: Sys, k: Key, limit: Word)
    requires Safe(sys) && k !in sys.procs
    ensures Moves(sys, Start(k, limit), Sys(sys.store, sys.procs[k := Newcomer(limit, Idle)]))
  {
  }

  /** A check that is approved takes a process from rest to approved and changes nothing else. */
  lemma ApprovedMoves(sys: Sys, k: Key, bytes: Word)
    requires Safe(sys) && k in Live(sys) && sys.procs[k].phase.Idle?
    requires Used(sys.store, Live(sys)) + bytes <= sys.procs[k].limit
    ensures Moves(sys, Check(k, bytes), Sys(sys.store, sys.procs[k := sys.procs[k].(phase := Approved(bytes))]))
  {
    CheckedPending(sys.procs[k], Used(sys.store, Live(sys)), bytes);
  }

  const A := Key(1, 0)
  const B := Key(2, 0)

  function Newcomer(limit: Word, phase: Phase): Proc {
    Proc(true, limit, phase, map[], map[], map[], map[])
  }

  lemma BothStart(rows: nat, slots: nat) returns (sys1: Sys, sys2: Sys)
    ensures Moves(Initial(rows, slots), Start(A, 10), sys1)
    ensures Moves(sys1, Start(B, 10), sys2) && Safe(sys2)
    ensures sys2 == Sys(InitialStore(rows, slots), map[A := Newcomer(10, Idle), B := Newcomer(10, Idle)])
  {
    var sys := Initial(rows, slots);
    sys1 := Sys(sys.store, sys.procs[A := Newcomer(10, Idle)]);
    InitialSafe(rows, slots);
    StartMoves(sys, A, 10);
    MovesKeep(sys, Start(A, 10), sys1);
    sys2 := Sys(sys.store, sys1.procs[B := Newcomer(10, Idle)]);
    StartMoves(sys1, B, 10);
    MovesKeep(sys1, Start(B, 10), sys2);
  }

  lemma SixApproved(rows: nat, slots: nat, sys: Sys, k: Key) returns (sys': Sys)
    requires Safe(sys) && sys.store == InitialStore(rows, slots)
    requires k in sys.procs && sys.procs[k] == Newcomer(10, Idle)
    ensures Moves(sys, Check(k, 6), sys') && Safe(sys')
    ensures sys' == Sys(sys.store, sys.procs[k := Newcomer(10, Approved(6))])
  {
    sys' := Sys(sys.store, sys.procs[k := Newcomer(10, Approved(6))]);
    NothingUsed(rows, slots, Live(sys));
    ApprovedMoves(sys, k, 6);
    MovesKeep(sys, Check(k, 6), sys');
  }

  lemma BothApproved(rows: nat, slots: nat, sys: Sys) returns (end: Sys)
    requires Safe(sys) && sys.store == InitialStore(rows, slots)
    requires A in sys.procs && B in sys.procs && sys.procs[A] == sys.procs[B] == Newcomer(10, Idle)
    ensures Leads(sys, Then(Check(A, 6), Then(Check(B, 6), Done)), end)
    ensures end == Sys(sys.store, sys.procs[A := Newcomer(10, Approved(6))][B := Newcomer(10, Approved(6))])
  {
    var sys3 := SixApproved(rows, slots, sys, A);
    end := SixApproved(rows, slots, sys3, B);
    LeadsOne(sys3, Check(B, 6), end);
    LeadsNext(sys, Check(A, 6), sys3, Then(Check(B, 6), Done), end);
  }

  function BothCheck(): Run {
    Then(Start(A, 10), Then(Start(B, 10), Then(Check(A, 6), Then(Check(B, 6), Done))))
  }

  /** Two processes that both check before either records pass a common limit of ten with six bytes each. */
  lemma InterleavedChecksPassCommonLimit(rows: nat, slots: nat)
    ensures FromStart(rows, slots, BothCheck())
    ensures LiveTotal(Reached(rows, slots, BothCheck())) == 12
  {
    var sys1, sys2 := BothStart(rows, slots);
    var end := BothApproved(rows, slots, sys2);
    LeadsNext(sys1, Start(B, 10), sys2, BothCheck().rest.rest, end);
    LeadsNext(Initial(rows, slots), Start(A, 10), sys1, BothCheck().rest, end);
    TwelvePending(end, rows, slots);
  }

  lemma TwelvePending(sys: Sys, rows: nat, slots: nat)
    requires sys.store == InitialStore(rows, slots)
    requires sys.procs == map[A := Newcomer(10, Approved(6)), B := Newcomer(10, Approved(6))]
    ensures LiveTotal(sys) == 12
  {
    InitialOK(rows, slots);
    FindRefinesLookup(sys.store.t, A, -1);
    FindRefinesLookup(sys.store.t, B, -1);
    assert Live(sys) == {A, B};
    var m: map<Key, nat> := map[A := 6, B := 6];
    assert Commitments(sys) == m;
    SixAndSix(m);
  }

  lemma SixAndSix(m: map<Key, nat>)
    requires m == map[A := 6, B := 6]
    ensures SumMap(m) == 12
  {
    SumMapAt(m, A);
    SumMapAt(m - {A}, B);
    assert m - {A} - {B} == map[];
  }

  lemma GrantMoves(sys: Sys, k: Key, h: Word, addr: Word)
    requires Safe(sys) && Enabled(sys, Grant(k, h, addr))
    ensures Moves(sys, Grant(k, h, addr), Sys(sys.store, sys.procs[k := GrantedBy(sys.procs[k], h, addr)]))
  {
  }

  lemma RegisterMoves(sys: Sys, k: Key) returns (sys': Sys)
    requires Safe(sys) && Enabled(sys, Register(k))
    ensures Moves(sys, Register(k), sys') && Safe(sys')
    ensures var p := sys.procs[k];
            && sys'.store == Add(sys.store, p.host, k, p.phase.addr, p.phase.bytes)
            && sys'.procs == sys.procs[k := Registered(p, Stores(sys.store, p.host, k, p.phase.addr))]
  {
    sys' := Apply(sys, Register(k));
    StepSafe(sys, Register(k));
  }

  /**
   * What an uninterrupted allocation does to a process at rest: its variable and the driver hold the handle, and
   * the bytes are unrecorded if there was no slot for them.
   */
  function AllocatedBy(p: Proc, bytes: Word, h: Word, addr: Word, stored: bool): Proc {
    p.(host := p.host[addr := h],
       driver := p.driver[h := bytes as nat],
       unrecorded := if stored then p.unrecorded else p.unrecorded[h := bytes as nat])
  }

  lemma AllocatedInSteps(p: Proc, bytes: Word, h: Word, addr: Word, stored: bool)
    requires p.phase.Idle?
    ensures Registered(GrantedBy(p.(phase := Approved(bytes)), h, addr), stored) ==
            AllocatedBy(p, bytes, h, addr, stored)
  {
  }

  lemma ApprovedAndGranted(sys: Sys, k: Key, bytes: Word, h: Word, addr: Word) returns (sys1: Sys, sys2: Sys)
    requires Safe(sys) && k in Live(sys) && sys.procs[k].phase.Idle? && addr != 0
    requires Used(sys.store, Live(sys)) + bytes <= sys.procs[k].limit
    ensures Moves(sys, Check(k, bytes), sys1) && Moves(sys1, Grant(k, h, addr), sys2) && Safe(sys2)
    ensures sys1 == Sys(sys.store, sys.procs[k := sys.procs[k].(phase := Approved(bytes))])
    ensures sys2 == Sys(sys.store, sys.procs[k := GrantedBy(sys.procs[k].(phase := Approved(bytes)), h, addr)])
  {
    var p1 := sys.procs[k].(phase := Approved(bytes));
    var p2 := GrantedBy(p1, h, addr);
    sys1 := Sys(sys.store, sys.procs[k := p1]);
    ApprovedMoves(sys, k, bytes);
    MovesKeep(sys, Check(k, bytes), sys1);
    SetTwice(sys.procs, k, p1, p2);
    sys2 := Sys(sys.store, sys.procs[k := p2]);
    GrantMoves(sys1, k, h, addr);
    MovesKeep(sys1, Grant(k, h, addr), sys2);
  }

  function Append(run: Run, rest: Run): Run {
    match run
    case Done => rest
    case Then(step, more) => Then(step, Append(more, rest))
  }

  /** One run after another is a run. */
  lemma {:induction false} LeadsAppend(sys: Sys, run: Run, mid: Sys, rest: Run, end: Sys)
    requires Leads(sys, run, mid) && Leads(mid, rest, end)
    ensures Leads(sys, Append(run, rest), end)
    decreases run
  {
    if run.Then? {
      var next := Apply(sys, run.first);
      StepSafe(sys, run.first);
      LeadsAppend(next, run.rest, mid, rest, end);
      LeadsNext(sys, run.first, next, Append(run.rest, rest), end);
    }
  }

  /** An uninterrupted allocation is check, grant and record in a row, and stores what the whole call stores. */
  lemma WholeAllocation(sys: Sys, k: Key, bytes: Word, h: Word, addr: Word) returns (end: Sys)
    requires Safe(sys) && k in Live(sys) && sys.procs[k].phase.Idle?
    requires Used(sys.store, Live(sys)) + bytes <= sys.procs[k].limit
    requires addr != 0 && Room(sys.store.t, k)
    requires FreshOrLast(Recs(sys.store, k), sys.procs[k].host[addr := h], addr)
    ensures Leads(sys, Then(Check(k, bytes), Then(Grant(k, h, addr), Then(Register(k), Done))), end) && Safe(end)
    ensures end.store == Add(sys.store, sys.procs[k].host[addr := h], k, addr, bytes)
    ensures end.procs == sys.procs[k := AllocatedBy(sys.procs[k], bytes, h, addr,
                                                          Stores(sys.store, sys.procs[k].host[addr := h], k, addr))]
  {
    var sys1, sys2 := ApprovedAndGranted(sys, k, bytes, h, addr);
    end := RegisterMoves(sys2, k);
    AllocatedInSteps(sys.procs[k], bytes, h, addr, Stores(sys.store, sys.procs[k].host[addr := h], k, addr));
    SetTwice(sys.procs, k, sys2.procs[k], end.procs[k]);
    LeadsOne(sys2, Register(k), end);
    LeadsNext(sys1, Grant(k, h, addr), sys2, Then(Register(k), Done), end);
    LeadsNext(sys, Check(k, bytes), sys1, Then(Grant(k, h, addr), Then(Register(k), Done)), end);
  }

  lemma UnregisterMoves(sys: Sys, k: Key, h: Word) returns (sys': Sys)
    requires Safe(sys) && Enabled(sys, Unregister(k, h))
    ensures Moves(sys, Unregister(k, h), sys') && Safe(sys')
    ensures sys'.store == Remove(sys.store, sys.procs[k].host, k, h)
    ensures sys'.procs == sys.procs[k := sys.procs[k].(phase := Freeing(h))]
  {
    sys' := Apply(sys, Unregister(k, h));
    StepSafe(sys, Unregister(k, h));
  }

  lemma DriverFreeMoves(sys: Sys, k: Key, ok: bool)
    requires Safe(sys) && Enabled(sys, DriverFree(k, ok))
    ensures Moves(sys, DriverFree(k, ok), Sys(sys.store, sys.procs[k := Freed(sys.procs[k], ok)]))
  {
  }

  /**
   * What a whole free does to a process at rest. If the driver refuses it still holds the handle, now without a
   * record.
   */
  function FreedBy(p: Proc, h: Word, ok: bool): Proc {
    p.(driver := if ok then p.driver - {h} else p.driver,
       unrecorded := if !ok && h in p.driver then p.unrecorded[h := p.driver[h]] else p.unrecorded - {h},
       stale := p.stale - {h})
  }

  lemma FreedInSteps(p: Proc, h: Word, ok: bool)
    requires p.phase.Idle?
    ensures Freed(p.(phase := Freeing(h)), ok) == FreedBy(p, h, ok)
  {
  }

  /** An uninterrupted free is unregister and driver free in a row; the record goes whatever the driver answers. */
  lemma WholeFree(sys: Sys, k: Key, h: Word, ok: bool) returns (end: Sys)
    requires Safe(sys) && k in Live(sys) && sys.procs[k].phase.Idle?
    ensures Leads(sys, Then(Unregister(k, h), Then(DriverFree(k, ok), Done)), end)
    ensures end.store == Remove(sys.store, sys.procs[k].host, k, h)
    ensures end.procs == sys.procs[k := FreedBy(sys.procs[k], h, ok)]
  {
    var sys1 := UnregisterMoves(sys, k, h);
    end := Sys(sys1.store, sys1.procs[k := Freed(sys1.procs[k], ok)]);
    FreedInSteps(sys.procs[k], h, ok);
    SetTwice(sys.procs, k, sys1.procs[k], end.procs[k]);
    DriverFreeMoves(sys1, k, ok);
    LeadsOne(sys1, DriverFree(k, ok), end);
    LeadsNext(sys, Unregister(k, h), sys1, Then(DriverFree(k, ok), Done), end);
  }
}
