/**
 * The protocol with the program's own usage count and its own removal in place of the intended ones, and the runs
 * on which the quota survives them.
 */
module AsWritten {
  import opened Words
  import opened Rows
  import opened Store
  import opened ReRegistration
  import opened Capacity
  import opened Usage
  import opened UsageWalk
  import opened Admission
  import opened Protocol
  import opened Readings

  function Reading(sys: Sys): Word {
    HeadsUpTo(sys.store, Live(sys), |sys.store.t|) % U64
  }

  /** The usage count returns: every walk it makes ends. */
  ghost predicate CountReturns(sys: Sys) {
    forall i: nat :: i < |sys.store.t| && Counted(sys.store, Live(sys), i) ==> EndsAtOnce(sys.store, i)
  }

  ghost predicate WrittenEnabled(sys: Sys, step: Step) {
    if step.Check? then
      && step.k in Live(sys) && sys.procs[step.k].phase.Idle?
      && CountReturns(sys) && Honest(Reading(sys), step.bytes, sys.procs[step.k].limit)
    else Enabled(sys, step)
  }

  ghost function WrittenApply(sys: Sys, step: Step): Sys
    requires Safe(sys) && WrittenEnabled(sys, step)
  {
    match step
    case Check(k, bytes) => Sys(sys.store, sys.procs[k := Checked(sys.procs[k], Reading(sys), bytes)])
    case Unregister(k, h) =>
      Sys(RemoveAsWritten(sys.store, sys.procs[k].host, k, h), sys.procs[k := sys.procs[k].(phase := Freeing(h))])
    case _ => Apply(sys, step)
  }

  /** The reading is the true one, as a word, exactly when the records after first ones add up to a multiple of 2^64. */
  lemma ReadingTrueExact(sys: Sys)
    requires Safe(sys)
    ensures Reading(sys) == Used(sys.store, Live(sys)) % U64 <==>
            TailsUpTo(sys.store, Live(sys), |sys.store.t|) % U64 == 0
  {
    UsageAsWrittenExact(sys.store, Live(sys));
  }

  /** A process at rest is held up at its check, whatever it requests, exactly when the count does not return. */
  lemma CheckPossibleExact(sys: Sys, k: Key)
    requires k in Live(sys) && sys.procs[k].phase.Idle?
    ensures (exists bytes: Word :: WrittenEnabled(sys, Check(k, bytes))) <==> CountReturns(sys)
  {
    if CountReturns(sys) {
      assert WrittenEnabled(sys, Check(k, 0));
    }
  }

  /** A check whose reading covers the process's own records; a free of a handle that is not the process's first. */
  ghost predicate Harmless(sys: Sys, step: Step) {
    && (step.Check? ==> Recorded(sys.store, step.k) <= Reading(sys))
    && (step.Unregister? && step.k in sys.procs ==> PosOf(sys.store, sys.procs[step.k].host, step.k, step.h) != 0)
  }

  /** A free as written keeps the structure and the quotas exactly when its handle is not the process's first. */
  lemma UnregisterExact(sys: Sys, k: Key, h: Word)
    requires Safe(sys) && WrittenEnabled(sys, Unregister(k, h))
    ensures Safe(WrittenApply(sys, Unregister(k, h))) <==> PosOf(sys.store, sys.procs[k].host, k, h) != 0
  {
    RemoveAsWrittenExact(sys.store, sys.procs[k].host, k, h);
    if PosOf(sys.store, sys.procs[k].host, k, h) != 0 {
      StepSafe(sys, Unregister(k, h));
    }
  }

  lemma CheckSafe(sys: Sys, k: Key, bytes: Word)
    requires Safe(sys) && WrittenEnabled(sys, Check(k, bytes))
    requires Recorded(sys.store, k) <= Reading(sys)
    ensures Safe(WrittenApply(sys, Check(k, bytes)))
  {
    CheckOutcome(sys, k, Reading(sys), bytes);
    HonestIsExact(Reading(sys), bytes, sys.procs[k].limit);
    OneProcChanges(sys, k, Checked(sys.procs[k], Reading(sys), bytes));
  }

  lemma PastLimit(sys: Sys, k: Key)
    requires k in sys.procs && Recorded(sys.store, k) + Pending(sys.procs[k]) > sys.procs[k].limit
    ensures !Safe(sys)
  {
  }

  lemma ApprovedPast(recorded: nat, p: Proc, reading: Word) returns (bytes: Word)
    requires p.phase.Idle? && reading < recorded <= p.limit
    ensures Honest(reading, bytes, p.limit) && Checked(p, reading, bytes) == p.(phase := Approved(bytes))
    ensures recorded + bytes > p.limit
  {
    bytes := p.limit - reading;
    ModIs(reading + bytes, U64, 0, reading + bytes);
  }

  lemma CheckUnsafe(sys: Sys, k: Key) returns (bytes: Word)
    requires Safe(sys) && k in Live(sys) && sys.procs[k].phase.Idle? && CountReturns(sys)
    requires Recorded(sys.store, k) > Reading(sys)
    ensures WrittenEnabled(sys, Check(k, bytes)) && !Safe(WrittenApply(sys, Check(k, bytes)))
  {
    CheckOutcome(sys, k, Reading(sys), 0);
    bytes := ApprovedPast(Recorded(sys.store, k), sys.procs[k], Reading(sys));
    PastLimit(WrittenApply(sys, Check(k, bytes)), k);
  }

  /** Checks on the reading as written keep every quota, whatever is requested, exactly when it covers the records. */
  lemma CheckExact(sys: Sys, k: Key)
    requires Safe(sys) && k in Live(sys) && sys.procs[k].phase.Idle? && CountReturns(sys)
    ensures (forall bytes: Word :: WrittenEnabled(sys, Check(k, bytes)) ==> Safe(WrittenApply(sys, Check(k, bytes))))
            <==> Recorded(sys.store, k) <= Reading(sys)
  {
    if Recorded(sys.store, k) <= Reading(sys) {
      forall bytes: Word | WrittenEnabled(sys, Check(k, bytes)) ensures Safe(WrittenApply(sys, Check(k, bytes))) {
        CheckSafe(sys, k, bytes);
      }
    } else {
      var bytes := CheckUnsafe(sys, k);
    }
  }

  lemma WrittenStepSafe(sys: Sys, step: Step)
    requires Safe(sys) && WrittenEnabled(sys, step) && Harmless(sys, step)
    ensures Safe(WrittenApply(sys, step))
  {
    if step.Check? {
      CheckSafe(sys, step.k, step.bytes);
    } else if step.Unregister? {
      UnregisterExact(sys, step.k, step.h);
    } else {
      StepSafe(sys, step);
    }
  }

  /** Each step can be taken where it stands, with the program's own count and removal, and is harmless. */
  ghost predicate WrittenAllowed(sys: Sys, run: Run)
    requires Safe(sys)
    decreases run
  {
    match run
    case Done => true
    case Then(step, rest) =>
      && WrittenEnabled(sys, step) && Harmless(sys, step)
      && (WrittenStepSafe(sys, step); WrittenAllowed(WrittenApply(sys, step), rest))
  }

  ghost function WrittenAfter(sys: Sys, run: Run): Sys
    requires Safe(sys) && WrittenAllowed(sys, run)
    decreases run
  {
    match run
    case Done => sys
    case Then(step, rest) =>
      WrittenStepSafe(sys, step);
      WrittenAfter(WrittenApply(sys, step), rest)
  }

  lemma {:induction false} WrittenRunSafe(sys: Sys, run: Run)
    requires Safe(sys) && WrittenAllowed(sys, run)
    ensures Safe(WrittenAfter(sys, run))
    decreases run
  {
    match run
    case Done =>
    case Then(step, rest) =>
      WrittenStepSafe(sys, step);
      WrittenRunSafe(WrittenApply(sys, step), rest);
  }

  /**
   * With the program's own count and removal, after any run of harmless steps every process is within its limit
   * and the slab holds exactly the records.
   */
  lemma QuotaHoldsAsWritten(rows: nat, slots: nat, run: Run)
    requires Safe(Initial(rows, slots)) && WrittenAllowed(Initial(rows, slots), run)
    ensures var sys := WrittenAfter(Initial(rows, slots), run);
            && (forall k :: k in sys.procs ==> Recorded(sys.store, k) + Pending(sys.procs[k]) <= sys.procs[k].limit)
            && WF(sys.store) && |Occupied(sys.store.s)| == RecordCount(sys.store, |sys.store.t|)
  {
    WrittenRunSafe(Initial(rows, slots), run);
    var sys := WrittenAfter(Initial(rows, slots), run);
    CapacityExact(sys.store);
    forall k | k in sys.procs ensures Recorded(sys.store, k) + Pending(sys.procs[k]) <= sys.procs[k].limit {
      assert ProcSafe(Recs(sys.store, k), sys.procs[k]);
    }
  }
}
