/** What the driver really holds, for one process and for all live ones, against the limits. */
module Holdings {
  import opened Words
  import opened Rows
  import opened Store
  import opened Usage
  import opened Handles
  import opened Protocol
  import opened Quota
  import opened Mirror

  /**
   * Bytes committed; or, while a handle is unregistered and not yet freed, what the driver still holds beyond the
   * unrecorded, if that is more.
   */
  ghost function Weight(sys: Sys, k: Key): (w: nat)
    requires k in sys.procs
    ensures Committed(sys, k) <= w
  {
    var p, c := sys.procs[k], Committed(sys, k);
    if p.phase.Freeing? && SumMap(p.driver) > c + SumMap(p.unrecorded)
    then SumMap(p.driver) - SumMap(p.unrecorded)
    else c
  }

  lemma HeldWithinWeight(sys: Sys, k: Key)
    requires Accounted(sys) && k in sys.procs
    ensures SumMap(sys.procs[k].driver) <= Weight(sys, k) + SumMap(sys.procs[k].unrecorded)
  {
    if !sys.procs[k].phase.Freeing? {
      BytesLocal(Recs(sys.store, k), sys.procs[k]);
    }
  }

  lemma OthersWeight(sys: Sys, step: Step, j: Key)
    requires Safe(sys) && Enabled(sys, step) && j in sys.procs && j != step.k
    ensures Weight(Apply(sys, step), j) == Weight(sys, j)
  {
    OthersCommitted(sys, step, j);
  }

  lemma PhaseAfter(sys: Sys, step: Step)
    requires Enabled(sys, step)
    ensures ProcAfter(sys, step).phase.Freeing? <==> step.Unregister?
  {
  }

  lemma UnregisterWeight(sys: Sys, k: Key, h: Word)
    requires Safe(sys) && Accounted(sys) && Enabled(sys, Unregister(k, h))
    ensures Weight(Apply(sys, Unregister(k, h)), k) <= Weight(sys, k)
  {
    UnregisterCommits(sys, k, h);
    BytesLocal(Recs(sys.store, k), sys.procs[k]);
  }

  lemma OwnWeight(sys: Sys, step: Step)
    requires Safe(sys) && Accounted(sys) && Enabled(sys, step) && !step.Start? && !step.Check?
    ensures Weight(Apply(sys, step), step.k) <= Weight(sys, step.k)
  {
    if step.Unregister? {
      UnregisterWeight(sys, step.k, step.h);
    } else {
      PhaseAfter(sys, step);
      OwnCommitted(sys, step);
    }
  }

  // One process.

  ghost predicate WeighWithin(sys: Sys) {
    forall k :: k in sys.procs ==> Weight(sys, k) <= sys.procs[k].limit
  }

  lemma OwnWeighs(sys: Sys, step: Step)
    requires Safe(sys) && Accounted(sys) && Enabled(sys, step) && WeighWithin(sys)
    ensures Weight(Apply(sys, step), step.k) <= Apply(sys, step).procs[step.k].limit
  {
    StepSafe(sys, step);
    LiveAfter(sys, step);
    if step.Unregister? {
      OwnWeight(sys, step);
    } else {
      PhaseAfter(sys, step);
      assert ProcSafe(Recs(Apply(sys, step).store, step.k), Apply(sys, step).procs[step.k]);
    }
  }

  lemma StepWeighs(sys: Sys, step: Step)
    requires Safe(sys) && Accounted(sys) && Enabled(sys, step) && WeighWithin(sys)
    ensures WeighWithin(Apply(sys, step))
  {
    OwnWeighs(sys, step);
    forall j | j in sys.procs && j != step.k
      ensures Weight(Apply(sys, step), j) <= Apply(sys, step).procs[j].limit
    {
      OthersWeight(sys, step, j);
    }
  }

  lemma {:induction false} RunWeighs(sys: Sys, run: Run)
    requires Safe(sys) && Accounted(sys) && WeighWithin(sys) && Allowed(sys, run) && OrderlyRun(sys, run)
    ensures WeighWithin(After(sys, run))
    decreases run
  {
    if run.Then? {
      StepSafe(sys, run.first);
      StepAccounted(sys, run.first);
      StepWeighs(sys, run.first);
      RunWeighs(Apply(sys, run.first), run.rest);
    }
  }

  /**
   * In every state an orderly run reaches, in the middle of a free too, what the driver holds for a process is
   * within its limit plus what is unrecorded; at rest that is what it holds under handles that no record has.
   */
  lemma DriverWithinLimit(rows: nat, slots: nat, run: Run, k: Key)
    requires FromStart(rows, slots, run) && OrderlyRun(Initial(rows, slots), run)
    requires k in Reached(rows, slots, run).procs
    ensures var sys := Reached(rows, slots, run); var p := sys.procs[k];
            var view := HandleMap(p.host, Recs(sys.store, k));
            && SumMap(p.driver) <= p.limit + SumMap(p.unrecorded)
            && (AtRest(p) ==> SumMap(p.driver) <= p.limit + SumMap(Unmatched(p.driver, view)))
  {
    ReachedAccounted(rows, slots, run);
    RunWeighs(Initial(rows, slots), run);
    var sys := Reached(rows, slots, run);
    HeldWithinWeight(sys, k);
    if AtRest(sys.procs[k]) {
      AccountsExact(sys, k);
    }
  }

  // All live processes.

  ghost function Weights(sys: Sys): map<Key, nat> {
    map k | k in Live(sys) :: Weight(sys, k)
  }

  ghost function DriverTotal(sys: Sys): nat {
    SumMap(map k | k in Live(sys) :: SumMap(sys.procs[k].driver))
  }

  ghost function UnrecordedTotal(sys: Sys): nat {
    SumMap(map k | k in Live(sys) :: SumMap(sys.procs[k].unrecorded))
  }

  /** As for the common limit, and no process checks while another live one is in the middle of a free. */
  predicate Undisturbed(sys: Sys, step: Step, limit: Word) {
    && Uninterrupted(sys, step, limit)
    && (step.Check? ==> NobodyFreeing(sys))
  }

  predicate NobodyFreeing(sys: Sys) {
    forall j :: j in Live(sys) ==> !sys.procs[j].phase.Freeing?
  }

  ghost predicate CalmRun(sys: Sys, run: Run, limit: Word)
    requires Safe(sys) && Allowed(sys, run)
    decreases run
  {
    run.Done? ||
    (Undisturbed(sys, run.first, limit)
     && (StepSafe(sys, run.first); CalmRun(Apply(sys, run.first), run.rest, limit)))
  }

  lemma WeightsAfter(sys: Sys, step: Step)
    requires Safe(sys) && Enabled(sys, step)
    ensures forall j :: j in Weights(sys) && j != step.k ==>
                          j in Weights(Apply(sys, step)) && Weights(Apply(sys, step))[j] == Weights(sys)[j]
    ensures Weights(Apply(sys, step)).Keys - {step.k} == Weights(sys).Keys - {step.k}
  {
    LiveAfter(sys, step);
    forall j | j in Live(sys) && j != step.k ensures Weight(Apply(sys, step), j) == Weight(sys, j) {
      OthersWeight(sys, step, j);
    }
  }

  lemma StartWeighsNothing(sys: Sys, step: Step)
    requires Safe(sys) && Enabled(sys, step) && step.Start?
    ensures Weight(Apply(sys, step), step.k) == 0
  {
    StartCommitsNothing(sys, step);
    PhaseAfter(sys, step);
  }

  lemma WeightStep(sys: Sys, step: Step)
    requires Safe(sys) && Accounted(sys) && Enabled(sys, step) && !step.Check?
    ensures SumMap(Weights(Apply(sys, step))) <= SumMap(Weights(sys))
  {
    WeightsAfter(sys, step);
    LiveAfter(sys, step);
    if step.Start? {
      StartWeighsNothing(sys, step);
    } else {
      OwnWeight(sys, step);
    }
    SumMapNotRaised(Weights(sys), Weights(Apply(sys, step)), step.k);
  }

  lemma CalmWeights(sys: Sys)
    requires NobodyFreeing(sys)
    ensures SumMap(Weights(sys)) == LiveTotal(sys)
  {
    SameTotals(Weights(sys), Commitments(sys));
  }

  lemma StillNobodyFreeing(sys: Sys, step: Step)
    requires Safe(sys) && Enabled(sys, step) && step.Check? && NobodyFreeing(sys)
    ensures NobodyFreeing(Apply(sys, step))
  {
    LiveAfter(sys, step);
    PhaseAfter(sys, step);
  }

  lemma CalmStep(sys: Sys, step: Step, limit: Word)
    requires Safe(sys) && Accounted(sys) && Enabled(sys, step) && Undisturbed(sys, step, limit)
    requires SumMap(Weights(sys)) <= limit
    requires forall k :: k in sys.procs ==> sys.procs[k].limit == limit
    ensures SumMap(Weights(Apply(sys, step))) <= limit
  {
    if step.Check? {
      CalmWeights(sys);
      StillNobodyFreeing(sys, step);
      CalmWeights(Apply(sys, step));
      SerialStep(sys, step, limit);
    } else {
      WeightStep(sys, step);
    }
  }

  lemma LimitsKept(sys: Sys, step: Step, limit: Word)
    requires Safe(sys) && Enabled(sys, step) && Uninterrupted(sys, step, limit)
    requires forall k :: k in sys.procs ==> sys.procs[k].limit == limit
    ensures forall k :: k in Apply(sys, step).procs ==> Apply(sys, step).procs[k].limit == limit
  {
    LiveAfter(sys, step);
  }

  lemma {:induction false} CalmRunWeighs(sys: Sys, run: Run, limit: Word)
    requires Safe(sys) && Accounted(sys) && Allowed(sys, run) && OrderlyRun(sys, run) && CalmRun(sys, run, limit)
    requires SumMap(Weights(sys)) <= limit
    requires forall k :: k in sys.procs ==> sys.procs[k].limit == limit
    ensures SumMap(Weights(After(sys, run))) <= limit
    decreases run
  {
    if run.Then? {
      StepSafe(sys, run.first);
      StepAccounted(sys, run.first);
      CalmStep(sys, run.first, limit);
      LimitsKept(sys, run.first, limit);
      CalmRunWeighs(Apply(sys, run.first), run.rest, limit);
    }
  }

  lemma SumMapBetween(m: map<Key, nat>, a: map<Key, nat>, b: map<Key, nat>)
    requires m.Keys == a.Keys == b.Keys
    requires forall k :: k in m ==> m[k] <= a[k] + b[k]
    ensures SumMap(m) <= SumMap(a) + SumMap(b)
    decreases |m.Keys|
  {
    if m.Keys != {} {
      var k :| k in m.Keys;
      SumMapAt(m, k);
      SumMapAt(a, k);
      SumMapAt(b, k);
      SumMapBetween(m - {k}, a - {k}, b - {k});
    }
  }

  lemma DriverTotalWithinWeights(sys: Sys)
    requires Accounted(sys)
    ensures DriverTotal(sys) <= SumMap(Weights(sys)) + UnrecordedTotal(sys)
  {
    forall k | k in Live(sys)
      ensures SumMap(sys.procs[k].driver) <= Weight(sys, k) + SumMap(sys.procs[k].unrecorded)
    {
      HeldWithinWeight(sys, k);
    }
    SumMapBetween(map k | k in Live(sys) :: SumMap(sys.procs[k].driver), Weights(sys),
                  map k | k in Live(sys) :: SumMap(sys.procs[k].unrecorded));
  }

  /**
   * With one common limit, and no check inside another process's allocation or free, what the driver holds for
   * all live processes together is within that limit plus what is unrecorded.
   */
  lemma DriverTotalHolds(rows: nat, slots: nat, run: Run, limit: Word)
    requires FromStart(rows, slots, run) && OrderlyRun(Initial(rows, slots), run)
    requires CalmRun(Initial(rows, slots), run, limit)
    ensures var sys := Reached(rows, slots, run);
            DriverTotal(sys) <= limit + UnrecordedTotal(sys)
  {
    var sys := Initial(rows, slots);
    assert Weights(sys) == map[];
    SumMapZero(Weights(sys));
    CalmRunWeighs(sys, run, limit);
    ReachedAccounted(rows, slots, run);
    DriverTotalWithinWeights(Reached(rows, slots, run));
  }
}
