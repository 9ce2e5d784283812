/** What holds in every reachable state of the protocol: the quota and the capacity. */
module Quota {
  import opened Words
  import opened Rows
  import opened Store
  import opened Refinement
  import opened Capacity
  import opened Usage
  import opened Protocol

  /** Bytes a process has recorded, or is approved to record. */
  function Committed(sys: Sys, k: Key): nat
    requires k in sys.procs
  {
    Recorded(sys.store, k) + Pending(sys.procs[k])
  }

  ghost function LiveTotal(sys: Sys): nat {
    SumMap(map k | k in Live(sys) :: Committed(sys, k))
  }

  ghost function LiveLimits(sys: Sys): nat {
    SumMap(map k | k in Live(sys) :: sys.procs[k].limit as nat)
  }

  /** In every reachable state no process is past its own limit, nor the live total past the sum of live limits. */
  lemma QuotaHolds(rows: nat, slots: nat, run: Run)
    requires FromStart(rows, slots, run)
    ensures var sys := Reached(rows, slots, run);
            && (forall k :: k in sys.procs ==> Committed(sys, k) <= sys.procs[k].limit)
            && Used(sys.store, Live(sys)) <= LiveTotal(sys) <= LiveLimits(sys)
  {
    ReachedSafe(rows, slots, run);
    var sys := Reached(rows, slots, run);
    UsedIsLedgerTotal(sys.store, Live(sys));
    SumMapLe(map k | k in Live(sys) :: Recorded(sys.store, k), map k | k in Live(sys) :: Committed(sys, k));
    SumMapLe(map k | k in Live(sys) :: Committed(sys, k), map k | k in Live(sys) :: sys.procs[k].limit as nat);
  }

  /** In every reachable state no slot is lost, and a push fails only when every slot holds a record. */
  lemma CapacityHolds(rows: nat, slots: nat, run: Run)
    requires FromStart(rows, slots, run)
    ensures var st := Reached(rows, slots, run).store;
            && WF(st)
            && |Occupied(st.s)| == RecordCount(st, |st.t|)
            && (FirstEmpty(st.s) == -1 <==> RecordCount(st, |st.t|) == |st.s|)
  {
    ReachedSafe(rows, slots, run);
    CapacityExact(Reached(rows, slots, run).store);
  }

  // One common limit.

  /** No process checks while another live one has bytes approved and not yet recorded; all limits are `limit`. */
  predicate Uninterrupted(sys: Sys, step: Step, limit: Word) {
    && (step.Start? ==> step.limit == limit)
    && (step.Check? ==> NothingPending(sys))
  }

  predicate NothingPending(sys: Sys) {
    forall j :: j in Live(sys) ==> Pending(sys.procs[j]) == 0
  }

  ghost predicate Serial(sys: Sys, run: Run, limit: Word)
    requires Safe(sys) && Allowed(sys, run)
    decreases run
  {
    run.Done? ||
    (Uninterrupted(sys, run.first, limit)
     && (StepSafe(sys, run.first); Serial(Apply(sys, run.first), run.rest, limit)))
  }

  lemma OthersCommitted(sys: Sys, step: Step, j: Key)
    requires Safe(sys) && Enabled(sys, step) && j in sys.procs && j != step.k
    ensures Committed(Apply(sys, step), j) == Committed(sys, j)
  {
    if step.Register? {
      var p := sys.procs[step.k];
      AddIsolated(sys.store, p.host, step.k, p.phase.addr, p.phase.bytes, j);
    } else if step.Unregister? {
      RemoveIsolated(sys.store, sys.procs[step.k].host, step.k, step.h, j);
    }
  }

  lemma RegisterCommits(sys: Sys, k: Key)
    requires Safe(sys) && Enabled(sys, Register(k))
    ensures Committed(Apply(sys, Register(k)), k) <= Committed(sys, k)
  {
    var p, st := sys.procs[k], sys.store;
    AddRefinesLedger(st, p.host, k, p.phase.addr, p.phase.bytes);
    AddedBytes(Recs(st, k), p.host, p.phase.addr, p.phase.bytes, FirstEmpty(st.s) != -1);
  }

  lemma UnregisterCommits(sys: Sys, k: Key, h: Word)
    requires Safe(sys) && Enabled(sys, Unregister(k, h))
    ensures Committed(Apply(sys, Unregister(k, h)), k) <= Committed(sys, k)
  {
    RemoveRefinesLedger(sys.store, sys.procs[k].host, k, h);
    RemovedBytes(Recs(sys.store, k), sys.procs[k].host, h);
  }

  lemma OwnCommitted(sys: Sys, step: Step)
    requires Safe(sys) && Enabled(sys, step) && !step.Start? && !step.Check?
    ensures Committed(Apply(sys, step), step.k) <= Committed(sys, step.k)
  {
    if step.Register? {
      RegisterCommits(sys, step.k);
    } else if step.Unregister? {
      UnregisterCommits(sys, step.k, step.h);
    } else {
      assert Pending(ProcAfter(sys, step)) <= Pending(sys.procs[step.k]);
    }
  }

  ghost function Commitments(sys: Sys): map<Key, nat> {
    map k | k in Live(sys) :: Committed(sys, k)
  }

  lemma LiveAfter(sys: Sys, step: Step)
    requires Safe(sys) && Enabled(sys, step)
    ensures Live(Apply(sys, step)) == if step.Start? then Live(sys) + {step.k}
                                      else if step.Exit? then Live(sys) - {step.k}
                                      else Live(sys)
    ensures step.k in Live(sys) <==> !step.Start?
    ensures !step.Start? ==> ProcAfter(sys, step).limit == sys.procs[step.k].limit
  {
    StepsKeepLimits(sys, step);
    LiveSet(sys, Apply(sys, step), step.k, ProcAfter(sys, step));
  }

  lemma StepsKeepLimits(sys: Sys, step: Step)
    requires Enabled(sys, step)
    ensures ProcAfter(sys, step).alive <==> !step.Exit?
    ensures !step.Start? ==> ProcAfter(sys, step).limit == sys.procs[step.k].limit
  {
  }

  lemma LiveSet(sys: Sys, sys': Sys, k: Key, p: Proc)
    requires sys'.procs == sys.procs[k := p]
    ensures Live(sys') == if p.alive then Live(sys) + {k} else Live(sys) - {k}
  {
  }

  lemma CommitmentsAfter(sys: Sys, step: Step)
    requires Safe(sys) && Enabled(sys, step)
    ensures var m, m' := Commitments(sys), Commitments(Apply(sys, step));
            forall j :: j in m && j != step.k ==> j in m' && m'[j] == m[j]
  {
    LiveAfter(sys, step);
    forall j | j in Live(sys) && j != step.k
      ensures j in sys.procs && Committed(Apply(sys, step), j) == Committed(sys, j)
    {
      OthersCommitted(sys, step, j);
    }
  }

  lemma TotalSteady(sys: Sys, step: Step)
    requires Safe(sys) && Enabled(sys, step) && !step.Start? && !step.Exit?
    ensures step.k in sys.procs
    ensures LiveTotal(Apply(sys, step)) == LiveTotal(sys) - Committed(sys, step.k) + Committed(Apply(sys, step), step.k)
  {
    CommitmentsAfter(sys, step);
    LiveAfter(sys, step);
    SumMapStep(Commitments(sys), Commitments(Apply(sys, step)), step.k);
  }

  lemma TotalStep(sys: Sys, step: Step)
    requires Safe(sys) && Enabled(sys, step) && !step.Check?
    ensures LiveTotal(Apply(sys, step)) <= LiveTotal(sys)
  {
    CommitmentsAfter(sys, step);
    LiveAfter(sys, step);
    if step.Start? {
      StartCommitsNothing(sys, step);
    } else {
      OwnCommitted(sys, step);
    }
    SumMapNotRaised(Commitments(sys), Commitments(Apply(sys, step)), step.k);
  }

  lemma StartCommitsNothing(sys: Sys, step: Step)
    requires Safe(sys) && Enabled(sys, step) && step.Start?
    ensures Committed(Apply(sys, step), step.k) == 0
  {
    NewcomerHasNoRecords(sys, step.k);
  }

  lemma CheckEffect(sys: Sys, k: Key, bytes: Word)
    requires Safe(sys) && Enabled(sys, Check(k, bytes))
    ensures Apply(sys, Check(k, bytes)).store == sys.store
    ensures Apply(sys, Check(k, bytes)).procs[k] == Checked(sys.procs[k], Used(sys.store, Live(sys)) % U64, bytes)
  {
  }

  ghost function Recordings(sys: Sys): map<Key, nat> {
    map k | k in Live(sys) :: Recorded(sys.store, k)
  }

  /** Usage and live total differ by what is pending. */
  lemma PendingTotal(sys: Sys)
    requires Safe(sys)
    ensures Used(sys.store, Live(sys)) <= LiveTotal(sys)
    ensures Used(sys.store, Live(sys)) == LiveTotal(sys) <==> NothingPending(sys)
  {
    UsedIsLedgerTotal(sys.store, Live(sys));
    SumMapLe(Recordings(sys), Commitments(sys));
    if NothingPending(sys) {
      SameTotals(Recordings(sys), Commitments(sys));
    } else {
      var j :| j in Live(sys) && Pending(sys.procs[j]) != 0;
      SumMapLt(Recordings(sys), Commitments(sys), j);
    }
  }

  lemma SameTotals(m: map<Key, nat>, n: map<Key, nat>)
    requires m.Keys == n.Keys && forall k :: k in m ==> m[k] == n[k]
    ensures SumMap(m) == SumMap(n)
  {
    assert m == n;
  }

  lemma CheckTotal(sys: Sys, k: Key, request: Word)
    requires Safe(sys) && Enabled(sys, Check(k, request))
    ensures LiveTotal(Apply(sys, Check(k, request))) ==
            LiveTotal(sys) + if Used(sys.store, Live(sys)) + request <= sys.procs[k].limit then request else 0
  {
    TotalSteady(sys, Check(k, request));
    CheckEffect(sys, k, request);
    CheckedPending(sys.procs[k], Used(sys.store, Live(sys)), request);
  }

  lemma ExactFit(sys: Sys, k: Key)
    requires Safe(sys) && k in Live(sys) && sys.procs[k].phase.Idle?
    requires Used(sys.store, Live(sys)) <= sys.procs[k].limit
    ensures Enabled(sys, Check(k, sys.procs[k].limit - Used(sys.store, Live(sys))))
  {
  }

  /**
   * Within a common limit, a process at rest may check whatever it likes, and the live total stays within that
   * limit, exactly when no live process has bytes approved and not yet recorded.
   */
  lemma CommonLimitExact(sys: Sys, k: Key)
    requires Safe(sys) && k in Live(sys) && sys.procs[k].phase.Idle?
    requires LiveTotal(sys) <= sys.procs[k].limit
    ensures (forall request: Word :: Enabled(sys, Check(k, request)) ==>
                                       LiveTotal(Apply(sys, Check(k, request))) <= sys.procs[k].limit)
            <==> NothingPending(sys)
  {
    PendingTotal(sys);
    forall request: Word | Enabled(sys, Check(k, request))
      ensures LiveTotal(Apply(sys, Check(k, request))) ==
              LiveTotal(sys) + if Used(sys.store, Live(sys)) + request <= sys.procs[k].limit then request else 0
    {
      CheckTotal(sys, k, request);
    }
    ExactFit(sys, k);
  }

  lemma SerialStep(sys: Sys, step: Step, limit: Word)
    requires Safe(sys) && Enabled(sys, step) && Uninterrupted(sys, step, limit)
    requires LiveTotal(sys) <= limit
    requires forall k :: k in sys.procs ==> sys.procs[k].limit == limit
    ensures LiveTotal(Apply(sys, step)) <= limit
    ensures forall k :: k in Apply(sys, step).procs ==> Apply(sys, step).procs[k].limit == limit
  {
    LiveAfter(sys, step);
    if !step.Check? {
      TotalStep(sys, step);
    } else {
      PendingTotal(sys);
      CheckTotal(sys, step.k, step.bytes);
    }
  }

  lemma {:induction false} SerialRun(sys: Sys, run: Run, limit: Word)
    requires Safe(sys) && Allowed(sys, run) && Serial(sys, run, limit)
    requires LiveTotal(sys) <= limit
    requires forall k :: k in sys.procs ==> sys.procs[k].limit == limit
    ensures LiveTotal(After(sys, run)) <= limit
    decreases run
  {
    if run.Then? {
      StepSafe(sys, run.first);
      SerialStep(sys, run.first, limit);
      SerialRun(Apply(sys, run.first), run.rest, limit);
    }
  }

  /** With one common limit and no check inside another allocation, the live total never exceeds that limit. */
  lemma CommonLimitHolds(rows: nat, slots: nat, run: Run, limit: Word)
    requires FromStart(rows, slots, run)
    requires Serial(Initial(rows, slots), run, limit)
    ensures LiveTotal(Reached(rows, slots, run)) <= limit
  {
    var sys := Initial(rows, slots);
    assert Commitments(sys) == map[];
    SumMapZero(Commitments(sys));
    SerialRun(sys, run, limit);
  }
}
