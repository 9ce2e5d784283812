/** What else every reachable state has: the lengths of the arrays, no tombstone, and no link from a free slot. */
module Reachable {
  import opened Words
  import opened Rows
  import opened ProbeTable
  import opened ProbeCoverage
  import opened Chains
  import opened Store
  import opened Refinement
  import opened ReRegistration
  import opened Capacity
  import opened UsageWalk
  import opened FreeSlots
  import opened RowRoom
  import opened Protocol
  import opened AsWritten

  ghost predicate Shaped(st: Store, rows: nat, slots: nat) {
    |st.t| == rows && |st.s| == slots && NoTombstone(st.t) && FreeUnlinked(st.s)
  }

  lemma AddShaped(st: Store, host: Host, k: Key, a: Word, b: Word, rows: nat, slots: nat)
    requires WF(st) && Shaped(st, rows, slots) && Room(st.t, k) && a != 0
    ensures Shaped(Add(st, host, k, a, b), rows, slots)
    ensures Keys(Add(st, host, k, a, b).t) == Keys(st.t) + {k}
  {
    AddKeepsFree(st, host, k, a, b);
    FindRefinesLookup(st.t, k, Find(st.t, k));
    if PosOf(st, host, k, Deref(host, a)) != -1 {
      AddOverwrites(st, host, k, a, b);
    } else {
      AddChangesOneRow(st, host, k, a, b);
      AddRefinesLedger(st, host, k, a, b);
    }
  }

  lemma RemoveShaped(st: Store, host: Host, k: Key, h: Word, rows: nat, slots: nat)
    requires WF(st) && Shaped(st, rows, slots)
    ensures Shaped(Remove(st, host, k, h), rows, slots) && Shaped(RemoveAsWritten(st, host, k, h), rows, slots)
    ensures Keys(Remove(st, host, k, h).t) == Keys(st.t)
  {
    RemoveKeepsFree(st, host, k, h);
    RemoveRefinesLedger(st, host, k, h);
    if PosOf(st, host, k, h) != -1 {
      RemoveChangesOneRow(st, host, k, h);
    }
  }

  lemma StepShaped(sys: Sys, step: Step, rows: nat, slots: nat)
    requires Safe(sys) && Enabled(sys, step) && Shaped(sys.store, rows, slots)
    ensures Shaped(Apply(sys, step).store, rows, slots)
    ensures Keys(sys.store.t) <= Keys(Apply(sys, step).store.t)
  {
    if step.Register? {
      var p := sys.procs[step.k];
      AddShaped(sys.store, p.host, step.k, p.phase.addr, p.phase.bytes, rows, slots);
    } else if step.Unregister? {
      RemoveShaped(sys.store, sys.procs[step.k].host, step.k, step.h, rows, slots);
    }
  }

  /** A run keeps the shape, and every row that is in use. */
  lemma {:induction false} RunShaped(sys: Sys, run: Run, rows: nat, slots: nat)
    requires Safe(sys) && Allowed(sys, run) && Shaped(sys.store, rows, slots)
    ensures Shaped(After(sys, run).store, rows, slots)
    ensures Keys(sys.store.t) <= Keys(After(sys, run).store.t)
    decreases run
  {
    if run.Then? {
      StepSafe(sys, run.first);
      StepShaped(sys, run.first, rows, slots);
      RunShaped(Apply(sys, run.first), run.rest, rows, slots);
    }
  }

  lemma InitialShaped(rows: nat, slots: nat)
    ensures Shaped(InitialStore(rows, slots), rows, slots)
  {
  }

  /**
   * In every reachable state a search that finds a row finds the one an insertion would take; a push fails
   * exactly when there are as many records as the slab was given slots; and the written walk of a row with
   * records ends exactly when the slot of the row's number exists and is free or holds some row's last record.
   */
  lemma ReachedShaped(rows: nat, slots: nat, run: Run)
    requires FromStart(rows, slots, run)
    ensures var st := Reached(rows, slots, run).store;
            && Shaped(st, rows, slots)
            && (forall k :: Find(st.t, k) != -1 ==> InsertPos(st.t, k) == Find(st.t, k))
            && (FirstEmpty(st.s) == -1 <==> RecordCount(st, rows) == slots)
            && forall i: nat :: InUse(st, i) && ChainAt(st, i) != [] ==>
                 (EndsAtOnce(st, i) <==> FreeOrLast(st, i))
  {
    InitialShaped(rows, slots);
    ReachedSafe(rows, slots, run);
    RunShaped(Initial(rows, slots), run, rows, slots);
    ShapeMeans(Reached(rows, slots, run).store, rows, slots);
  }

  lemma ShapeMeans(st: Store, rows: nat, slots: nat)
    requires WF(st) && NoLeak(st) && Shaped(st, rows, slots)
    ensures forall k :: Find(st.t, k) != -1 ==> InsertPos(st.t, k) == Find(st.t, k)
    ensures FirstEmpty(st.s) == -1 <==> RecordCount(st, rows) == slots
    ensures forall i: nat :: InUse(st, i) && ChainAt(st, i) != [] ==>
              (EndsAtOnce(st, i) <==> FreeOrLast(st, i))
  {
    forall k | Find(st.t, k) != -1 ensures InsertPos(st.t, k) == Find(st.t, k) {
      SearchIsInsertion(st.t, k, 0);
    }
    CapacityExact(st);
    forall i: nat | InUse(st, i) && ChainAt(st, i) != []
      ensures EndsAtOnce(st, i) <==> FreeOrLast(st, i)
    {
      WalkEndsWhere(st, i);
    }
  }

  // Rows.

  lemma SmallerSet<T>(a: set<T>, b: set<T>, x: T)
    requires a <= b && x in b && x !in a
    ensures |a| < |b|
  {
    SubsetSize(a, b - {x});
  }

  /**
   * While no more processes have started than the table has rows, no process with covering probes is ever without
   * a row, so that no allocation of its dereferences the null pointer.
   */
  lemma RowForEveryProcess(rows: nat, slots: nat, run: Run, k: Key)
    requires FromStart(rows, slots, run) && 0 < rows < U64 && WrapHarmless(k, rows)
    requires k in Reached(rows, slots, run).procs && |Reached(rows, slots, run).procs.Keys| <= rows
    ensures Room(Reached(rows, slots, run).store.t, k)
  {
    var sys := Reached(rows, slots, run);
    ReachedSafe(rows, slots, run);
    ReachedShaped(rows, slots, run);
    RoomCounted(sys.store.t, k);
    if k !in Keys(sys.store.t) {
      SmallerSet(Keys(sys.store.t), sys.procs.Keys, k);
    }
  }

  /** Rows are never given back: once every row is in use, a process without one never gets one, whoever exits. */
  lemma FullForEver(sys: Sys, run: Run, k: Key)
    requires Safe(sys) && Allowed(sys, run) && NoTombstone(sys.store.t) && FreeUnlinked(sys.store.s)
    requires forall p :: 0 <= p < |sys.store.t| ==> sys.store.t[p].stat.Exist?
    requires k !in Keys(sys.store.t)
    ensures !Room(After(sys, run).store.t, k)
  {
    var t, t' := sys.store.t, After(sys, run).store.t;
    RunShaped(sys, run, |t|, |sys.store.s|);
    RunSafe(sys, run);
    KeysCount(t);
    KeysCount(t');
    SubsetSize(Keys(t), Keys(t'));
    RoomExact(t', k);
  }

  // The same of the program's own count and removal.

  lemma WrittenStepShaped(sys: Sys, step: Step, rows: nat, slots: nat)
    requires Safe(sys) && WrittenEnabled(sys, step) && Shaped(sys.store, rows, slots)
    ensures Shaped(WrittenApply(sys, step).store, rows, slots)
  {
    if step.Unregister? {
      RemoveShaped(sys.store, sys.procs[step.k].host, step.k, step.h, rows, slots);
    } else if !step.Check? {
      StepShaped(sys, step, rows, slots);
    }
  }

  lemma {:induction false} WrittenRunShaped(sys: Sys, run: Run, rows: nat, slots: nat)
    requires Safe(sys) && WrittenAllowed(sys, run) && Shaped(sys.store, rows, slots)
    ensures Shaped(WrittenAfter(sys, run).store, rows, slots)
    decreases run
  {
    if run.Then? {
      WrittenStepSafe(sys, run.first);
      WrittenStepShaped(sys, run.first, rows, slots);
      WrittenRunShaped(WrittenApply(sys, run.first), run.rest, rows, slots);
    }
  }

  /**
   * With the program's own count and removal, in every state that harmless steps reach, the count returns exactly
   * when each live row with records has a slot of its number that is free or holds some row's last record.
   */
  lemma CountReturnsExact(rows: nat, slots: nat, run: Run)
    requires Safe(Initial(rows, slots)) && WrittenAllowed(Initial(rows, slots), run)
    ensures var sys := WrittenAfter(Initial(rows, slots), run); var st := sys.store;
            && Shaped(st, rows, slots)
            && (CountReturns(sys) <==>
                forall i: nat :: Counted(st, Live(sys), i) && ChainAt(st, i) != [] ==> FreeOrLast(st, i))
  {
    InitialShaped(rows, slots);
    WrittenRunSafe(Initial(rows, slots), run);
    WrittenRunShaped(Initial(rows, slots), run, rows, slots);
    var sys := WrittenAfter(Initial(rows, slots), run);
    forall i: nat | Counted(sys.store, Live(sys), i)
      ensures EndsAtOnce(sys.store, i) <==>
              ChainAt(sys.store, i) == [] || FreeOrLast(sys.store, i)
    {
      WalkEndsWhere(sys.store, i);
    }
  }
}
