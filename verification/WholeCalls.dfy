/** The other whole calls as runs, and whole calls with the program's own count and removal. */
module WholeCalls {
  import opened Words
  import opened MapLaws
  import opened Rows
  import opened Store
  import opened Refinement
  import opened ReRegistration
  import opened Usage
  import opened Handles
  import opened Admission
  import opened Protocol
  import opened Quota
  import opened AsWritten
  import opened Scenarios

  /** A request past the limit leaves everything as it was, also if its sum wraps and is past the limit all the same. */
  lemma WholeRejection(sys: Sys, k: Key, bytes: Word)
    requires Safe(sys) && k in Live(sys) && sys.procs[k].phase.Idle?
    requires Honest(Used(sys.store, Live(sys)), bytes, sys.procs[k].limit)
    requires sys.procs[k].limit < Used(sys.store, Live(sys)) + bytes
    ensures Leads(sys, Then(Check(k, bytes), Done), sys)
  {
    CheckedPending(sys.procs[k], Used(sys.store, Live(sys)), bytes);
    MinusSet(sys.procs, k, sys.procs[k]);
    LeadsOne(sys, Check(k, bytes), sys);
  }

  /** A request the driver refuses leaves everything as it was. */
  lemma WholeRefusal(sys: Sys, k: Key, bytes: Word)
    requires Safe(sys) && k in Live(sys) && sys.procs[k].phase.Idle?
    requires Used(sys.store, Live(sys)) + bytes <= sys.procs[k].limit
    ensures Leads(sys, Then(Check(k, bytes), Then(Refuse(k), Done)), sys)
  {
    var p := sys.procs[k].(phase := Approved(bytes));
    var mid := Sys(sys.store, sys.procs[k := p]);
    ApprovedMoves(sys, k, bytes);
    MovesKeep(sys, Check(k, bytes), mid);
    SetTwice(sys.procs, k, p, sys.procs[k]);
    MinusSet(sys.procs, k, sys.procs[k]);
    LeadsOne(mid, Refuse(k), sys);
    LeadsNext(sys, Check(k, bytes), mid, Then(Refuse(k), Done), sys);
  }

  /** What destroying an array does to a process: the driver lets go, and what was recorded becomes stale. */
  function DestroyedBy(p: Proc, h: Word): Proc {
    p.(driver := p.driver - {h},
       unrecorded := if h in p.driver then p.unrecorded - {h} else p.unrecorded,
       stale := if h in p.driver && h !in p.unrecorded then p.stale[h := p.driver[h]] else p.stale)
  }

  lemma DestroyedIs(p: Proc, h: Word)
    ensures Destroyed(p, h) == DestroyedBy(p, h)
    ensures Pending(DestroyedBy(p, h)) == Pending(p)
  {
    assert h !in p.driver ==> p.driver - {h} == p.driver;
    assert h !in p.unrecorded ==> p.unrecorded - {h} == p.unrecorded;
  }

  lemma DestroyMoves(sys: Sys, k: Key, h: Word)
    requires Safe(sys) && Enabled(sys, Destroy(k, h))
    ensures Moves(sys, Destroy(k, h), Sys(sys.store, sys.procs[k := Destroyed(sys.procs[k], h)]))
  {
  }

  /** Destroying an array takes the handle from the driver and from no record: the bytes stay charged. */
  lemma WholeDestruction(sys: Sys, k: Key, h: Word) returns (end: Sys)
    requires Safe(sys) && k in Live(sys) && sys.procs[k].phase.Idle?
    ensures Leads(sys, Then(Destroy(k, h), Done), end)
    ensures end == Sys(sys.store, sys.procs[k := DestroyedBy(sys.procs[k], h)])
    ensures Committed(end, k) == Committed(sys, k)
  {
    DestroyedIs(sys.procs[k], h);
    end := Sys(sys.store, sys.procs[k := DestroyedBy(sys.procs[k], h)]);
    DestroyMoves(sys, k, h);
    LeadsOne(sys, Destroy(k, h), end);
  }

  /** An exit drops the process's share from every later usage reading, though its records keep their slots. */
  lemma WholeExit(sys: Sys, k: Key) returns (end: Sys)
    requires Safe(sys) && k in Live(sys)
    ensures Leads(sys, Then(Exit(k), Done), end)
    ensures end.store == sys.store && Live(end) == Live(sys) - {k} && k in end.procs
    ensures forall j :: j in Live(end) ==> end.procs[j] == sys.procs[j]
    ensures Used(end.store, Live(end)) == Used(sys.store, Live(sys)) - Recorded(sys.store, k)
    ensures end.procs[k].driver == map[] == end.procs[k].unrecorded && Pending(end.procs[k]) == 0
    ensures end.procs[k].stale == HandleMap(sys.procs[k].host, Recs(sys.store, k))
  {
    end := Apply(sys, Exit(k));
    LeadsOne(sys, Exit(k), end);
    LiveAfter(sys, Exit(k));
    LessOne(sys.store, Live(sys), k);
  }

  lemma LessOne(st: Store, live: set<Key>, k: Key)
    requires WF(st) && k in live
    ensures Used(st, live - {k}) == Used(st, live) - Recorded(st, k)
  {
    var m := map j | j in live :: Recorded(st, j);
    UsedIsLedgerTotal(st, live);
    UsedIsLedgerTotal(st, live - {k});
    SumMapAt(m, k);
    assert m - {k} == map j | j in live - {k} :: Recorded(st, j);
  }

  lemma AnswersTo(host: Host, recs: seq<Rec>, i: nat, h: Word)
    requires i < |recs| && Deref(host, recs[i].ptr) == h
    ensures 0 <= FindRec(host, recs, h) <= i
  {
  }

  lemma AnswerToNew(recs: seq<Rec>, host: Host, addr: Word, val: Word)
    ensures forall i :: 0 <= i < |recs| && recs[i].ptr == addr ==> 0 <= FindRec(host[addr := val], recs, val) <= i
  {
    forall i | 0 <= i < |recs| && recs[i].ptr == addr ensures 0 <= FindRec(host[addr := val], recs, val) <= i {
      AnswersTo(host[addr := val], recs, i, val);
    }
  }

  lemma WriteMoves(sys: Sys, k: Key, addr: Word, val: Word)
    requires Safe(sys) && Enabled(sys, Write(k, addr, val))
    ensures var p := sys.procs[k];
            Moves(sys, Write(k, addr, val), Sys(sys.store, sys.procs[k := p.(host := p.host[addr := val])]))
  {
  }

  /**
   * A process that overwrites a variable changes no record; a record that names the variable answers to the new
   * value from then on.
   */
  lemma WholeWrite(sys: Sys, k: Key, addr: Word, val: Word) returns (host: Host, end: Sys)
    requires Safe(sys) && k in Live(sys) && sys.procs[k].phase.Idle?
    ensures Leads(sys, Then(Write(k, addr, val), Done), end)
    ensures end == Sys(sys.store, sys.procs[k := sys.procs[k].(host := host)])
    ensures forall a :: Deref(host, a) == if a == addr then val else Deref(sys.procs[k].host, a)
    ensures var recs := Recs(end.store, k);
            forall i :: 0 <= i < |recs| && recs[i].ptr == addr ==> 0 <= FindRec(host, recs, val) <= i
  {
    host := sys.procs[k].host[addr := val];
    end := Sys(sys.store, sys.procs[k := sys.procs[k].(host := host)]);
    WriteMoves(sys, k, addr, val);
    LeadsOne(sys, Write(k, addr, val), end);
    AnswerToNew(Recs(sys.store, k), sys.procs[k].host, addr, val);
  }

  // With the program's own count and removal.

  /** `run` can be taken from `sys` with harmless steps of the program's own, and ends in `end`. */
  ghost predicate LeadsWritten(sys: Sys, run: Run, end: Sys) {
    Safe(sys) && WrittenAllowed(sys, run) && WrittenAfter(sys, run) == end
  }

  ghost predicate MovesWritten(sys: Sys, step: Step, sys': Sys) {
    Safe(sys) && WrittenEnabled(sys, step) && Harmless(sys, step) && WrittenApply(sys, step) == sys'
  }

  lemma WrittenNext(sys: Sys, step: Step, sys': Sys, rest: Run, end: Sys)
    requires MovesWritten(sys, step, sys') && LeadsWritten(sys', rest, end)
    ensures LeadsWritten(sys, Then(step, rest), end)
  {
  }

  lemma WrittenOne(sys: Sys, step: Step, end: Sys)
    requires MovesWritten(sys, step, end)
    ensures LeadsWritten(sys, Then(step, Done), end)
  {
    WrittenStepSafe(sys, step);
  }

  /** A step that is neither a check nor a free is the program's own as well. */
  lemma SameStep(sys: Sys, step: Step, sys': Sys)
    requires Moves(sys, step, sys') && !step.Check? && !step.Unregister?
    ensures MovesWritten(sys, step, sys')
  {
  }

  lemma UnregisteredAsWritten(sys: Sys, k: Key, h: Word) returns (mid: Sys)
    requires Safe(sys) && k in Live(sys) && sys.procs[k].phase.Idle?
    ensures WrittenEnabled(sys, Unregister(k, h)) && WrittenApply(sys, Unregister(k, h)) == mid
    ensures mid == Sys(RemoveAsWritten(sys.store, sys.procs[k].host, k, h),
                       sys.procs[k := sys.procs[k].(phase := Freeing(h))])
  {
    mid := WrittenApply(sys, Unregister(k, h));
  }

  /**
   * A whole free as written empties the slot as written and then leaves the process as the intended one does,
   * whatever the driver answers. Away from the head the two steps are a run that keeps everything safe.
   */
  lemma WholeFreeAsWritten(sys: Sys, k: Key, h: Word, ok: bool) returns (mid: Sys, end: Sys)
    requires Safe(sys) && k in Live(sys) && sys.procs[k].phase.Idle?
    ensures WrittenEnabled(sys, Unregister(k, h)) && WrittenApply(sys, Unregister(k, h)) == mid
    ensures Enabled(mid, DriverFree(k, ok))
    ensures end == Sys(mid.store, mid.procs[k := ProcAfter(mid, DriverFree(k, ok))])
    ensures end.store == RemoveAsWritten(sys.store, sys.procs[k].host, k, h)
    ensures end.procs == sys.procs[k := FreedBy(sys.procs[k], h, ok)]
    ensures PosOf(sys.store, sys.procs[k].host, k, h) != 0 ==>
              LeadsWritten(sys, Then(Unregister(k, h), Then(DriverFree(k, ok), Done)), end)
  {
    mid := UnregisteredAsWritten(sys, k, h);
    end := Sys(mid.store, mid.procs[k := Freed(mid.procs[k], ok)]);
    FreedInSteps(sys.procs[k], h, ok);
    SetTwice(sys.procs, k, mid.procs[k], end.procs[k]);
    if PosOf(sys.store, sys.procs[k].host, k, h) != 0 {
      UnregisterExact(sys, k, h);
      DriverFreeMoves(mid, k, ok);
      SameStep(mid, DriverFree(k, ok), end);
      WrittenOne(mid, DriverFree(k, ok), end);
      WrittenNext(sys, Unregister(k, h), mid, Then(DriverFree(k, ok), Done), end);
    }
  }

  lemma PastLimitCheck(p: Proc, reading: Word, bytes: Word)
    requires Honest(reading, bytes, p.limit) && p.limit < reading + bytes
    ensures Checked(p, reading, bytes) == p
  {
    HonestIsExact(reading, bytes, p.limit);
  }

  /** With the program's own count too, a request past the limit leaves everything as it was. */
  lemma WholeRejectionAsWritten(sys: Sys, k: Key, bytes: Word)
    requires Safe(sys) && k in Live(sys) && sys.procs[k].phase.Idle? && CountReturns(sys)
    requires Recorded(sys.store, k) <= Reading(sys) && Honest(Reading(sys), bytes, sys.procs[k].limit)
    requires sys.procs[k].limit < Reading(sys) + bytes
    ensures LeadsWritten(sys, Then(Check(k, bytes), Done), sys)
  {
    PastLimitCheck(sys.procs[k], Reading(sys), bytes);
    WrittenCheck(sys, k, bytes);
    MinusSet(sys.procs, k, sys.procs[k]);
    WrittenOne(sys, Check(k, bytes), sys);
  }

  lemma ApprovedAsWritten(sys: Sys, k: Key, bytes: Word) returns (mid: Sys)
    requires Safe(sys) && k in Live(sys) && sys.procs[k].phase.Idle? && CountReturns(sys)
    requires Recorded(sys.store, k) <= Reading(sys) && Reading(sys) + bytes <= sys.procs[k].limit
    ensures MovesWritten(sys, Check(k, bytes), mid) && Safe(mid)
    ensures mid == Sys(sys.store, sys.procs[k := sys.procs[k].(phase := Approved(bytes))])
  {
    FittingCheck(sys.procs[k], Reading(sys), bytes);
    mid := Sys(sys.store, sys.procs[k := sys.procs[k].(phase := Approved(bytes))]);
    WrittenCheck(sys, k, bytes);
    CheckSafe(sys, k, bytes);
  }

  lemma FittingCheck(p: Proc, reading: Word, bytes: Word)
    requires p.phase.Idle? && reading + bytes <= p.limit
    ensures Honest(reading, bytes, p.limit) && Checked(p, reading, bytes) == p.(phase := Approved(bytes))
  {
    ModIs(reading + bytes, U64, 0, reading + bytes);
  }

  lemma WrittenCheck(sys: Sys, k: Key, bytes: Word)
    requires Safe(sys) && WrittenEnabled(sys, Check(k, bytes))
    ensures WrittenApply(sys, Check(k, bytes)) ==
            Sys(sys.store, sys.procs[k := Checked(sys.procs[k], Reading(sys), bytes)])
  {
  }

  lemma GrantedAndRegistered(sys: Sys, mid: Sys, k: Key, bytes: Word, h: Word, addr: Word) returns (sys2: Sys, end: Sys)
    requires Safe(mid) && k in Live(sys) && sys.procs[k].phase.Idle?
    requires mid == Sys(sys.store, sys.procs[k := sys.procs[k].(phase := Approved(bytes))])
    requires addr != 0 && Room(sys.store.t, k)
    requires FreshOrLast(Recs(sys.store, k), sys.procs[k].host[addr := h], addr)
    ensures Moves(mid, Grant(k, h, addr), sys2) && Moves(sys2, Register(k), end)
    ensures end.store == Add(sys.store, sys.procs[k].host[addr := h], k, addr, bytes)
    ensures end.procs == sys.procs[k := AllocatedBy(sys.procs[k], bytes, h, addr,
                                                          Stores(sys.store, sys.procs[k].host[addr := h], k, addr))]
  {
    var p := sys.procs[k].(phase := Approved(bytes));
    sys2 := Sys(sys.store, sys.procs[k := GrantedBy(p, h, addr)]);
    SetTwice(sys.procs, k, p, GrantedBy(p, h, addr));
    GrantMoves(mid, k, h, addr);
    MovesKeep(mid, Grant(k, h, addr), sys2);
    end := RegisterMoves(sys2, k);
    AllocatedInSteps(sys.procs[k], bytes, h, addr, Stores(sys.store, sys.procs[k].host[addr := h], k, addr));
    SetTwice(sys.procs, k, sys2.procs[k], end.procs[k]);
  }

  /** With the program's own count, an uninterrupted allocation within its reading stores what the whole call stores. */
  lemma WholeAllocationAsWritten(sys: Sys, k: Key, bytes: Word, h: Word, addr: Word) returns (end: Sys)
    requires Safe(sys) && k in Live(sys) && sys.procs[k].phase.Idle? && CountReturns(sys)
    requires Recorded(sys.store, k) <= Reading(sys) && Reading(sys) + bytes <= sys.procs[k].limit
    requires addr != 0 && Room(sys.store.t, k)
    requires FreshOrLast(Recs(sys.store, k), sys.procs[k].host[addr := h], addr)
    ensures LeadsWritten(sys, Then(Check(k, bytes), Then(Grant(k, h, addr), Then(Register(k), Done))), end)
    ensures end.store == Add(sys.store, sys.procs[k].host[addr := h], k, addr, bytes)
    ensures end.procs == sys.procs[k := AllocatedBy(sys.procs[k], bytes, h, addr,
                                                          Stores(sys.store, sys.procs[k].host[addr := h], k, addr))]
  {
    var mid := ApprovedAsWritten(sys, k, bytes);
    var sys2, last := GrantedAndRegistered(sys, mid, k, bytes, h, addr);
    end := last;
    SameStep(sys2, Register(k), end);
    WrittenOne(sys2, Register(k), end);
    SameStep(mid, Grant(k, h, addr), sys2);
    WrittenNext(mid, Grant(k, h, addr), sys2, Then(Register(k), Done), end);
    WrittenNext(sys, Check(k, bytes), mid, Then(Grant(k, h, addr), Then(Register(k), Done)), end);
  }
}
