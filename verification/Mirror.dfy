/**
 * The ledger as a mirror of the driver. On runs that also keep to the rules below, the accounts kept beside the
 * run say exactly what the driver holds and the ledger does not, and the other way round.
 */
module Mirror {
  import opened Words
  import opened MapLaws
  import opened Rows
  import opened Store
  import opened Refinement
  import opened Usage
  import opened Handles
  import opened Protocol

  /**
   * The driver answers with a handle that it is not using and that no record still names, and reports a freed
   * or destroyed handle only if it held it. A process does not write a variable that one of its records names.
   */
  predicate Orderly(sys: Sys, step: Step)
    requires Enabled(sys, step)
  {
    if step.Start? then true
    else
      var p := sys.procs[step.k];
      match step
      case Grant(k, h, addr) => Unused(Recs(sys.store, k), addr) && h !in p.driver && h !in p.stale
      case DriverFree(_, ok) => ok ==> p.phase.handle in p.driver
      case Destroy(_, h) => h in p.driver
      case Write(k, addr, _) => Unused(Recs(sys.store, k), addr)
      case _ => true
  }

  /** What the driver holds and what is stale, together, are what is recorded and what is unrecorded, together. */
  ghost predicate Conserved(view: map<Word, nat>, p: Proc) {
    && p.driver.Keys !! p.stale.Keys
    && p.unrecorded.Keys !! view.Keys
    && p.unrecorded.Keys !! p.stale.Keys
    && match p.phase
       case Granted(addr, b) =>
         var h := Deref(p.host, addr);
         h in p.driver && h !in view && h !in p.unrecorded && p.driver + p.stale == (view + p.unrecorded)[h := b as nat]
       case Freeing(h) => h !in view && (p.driver + p.stale) - {h} == (view + p.unrecorded) - {h}
       case _ => p.driver + p.stale == view + p.unrecorded
  }

  ghost predicate ProcAccounted(recs: seq<Rec>, p: Proc) {
    && UniqueHandles(p.host, recs)
    && (p.phase.Granted? ==> Unused(recs, p.phase.addr))
    && Conserved(HandleMap(p.host, recs), p)
  }

  ghost predicate Accounted(sys: Sys) {
    forall k :: k in sys.procs ==> ProcAccounted(Recs(sys.store, k), sys.procs[k])
  }

  // Steps that leave the store alone, one process at a time.

  lemma GrantKeeps(recs: seq<Rec>, p: Proc, h: Word, addr: Word)
    requires ProcAccounted(recs, p) && p.phase.Approved?
    requires Unused(recs, addr) && h !in p.driver && h !in p.stale
    ensures ProcAccounted(recs, GrantedBy(p, h, addr))
  {
    HandleMapFrame(p.host, recs, addr, h);
    var view := HandleMap(p.host, recs);
    assert h !in p.driver + p.stale;
    assert h !in view + p.unrecorded;
    SetLeft(p.driver, p.stale, h, p.phase.bytes as nat);
  }

  lemma FreeSucceeded(view: map<Word, nat>, p: Proc)
    requires Conserved(view, p) && p.phase.Freeing? && p.phase.handle in p.driver
    ensures Conserved(view, Freed(p, true))
  {
    var h := p.phase.handle;
    MinusSum(p.driver, p.stale, h);
    MinusSum(view, p.unrecorded, h);
    MinusAbsent(view, h);
  }

  lemma FreeFailed(view: map<Word, nat>, p: Proc)
    requires Conserved(view, p) && p.phase.Freeing?
    ensures Conserved(view, Freed(p, false))
  {
    var h := p.phase.handle;
    MinusSum(p.driver, p.stale, h);
    MinusSum(view, p.unrecorded, h);
    MinusAbsent(view, h);
    if h in p.driver {
      var v := p.driver[h];
      MinusAbsent(p.stale, h);
      SetLeft(p.driver, p.stale, h, v);
      SetRight(view, p.unrecorded, h, v);
      MinusSet(p.driver, h, v);
      MinusSet(p.driver + p.stale, h, v);
      MinusSet(view + p.unrecorded, h, v);
    } else {
      MinusAbsent(p.driver, h);
    }
  }

  lemma DestroyedConserves(view: map<Word, nat>, p: Proc, h: Word)
    requires Conserved(view, p) && p.phase.Idle? && h in p.driver
    ensures Conserved(view, Destroyed(p, h))
  {
    if h in p.unrecorded {
      MinusSum(p.driver, p.stale, h);
      MinusSum(view, p.unrecorded, h);
      MinusAbsent(p.stale, h);
      MinusAbsent(view, h);
    } else {
      SetRight(p.driver - {h}, p.stale, h, p.driver[h]);
      SetLeft(p.driver - {h}, p.stale, h, p.driver[h]);
      MinusSet(p.driver, h, p.driver[h]);
    }
  }

  lemma ExitKeeps(recs: seq<Rec>, p: Proc)
    requires ProcAccounted(recs, p)
    ensures ProcAccounted(recs, Exited(p, recs))
  {
    var view := HandleMap(p.host, recs);
    assert map[] + view == view + map[];
  }

  lemma LocalKeeps(sys: Sys, step: Step)
    requires Safe(sys) && Accounted(sys) && Enabled(sys, step) && Orderly(sys, step)
    requires !step.Start? && !step.Register? && !step.Unregister?
    ensures ProcAccounted(Recs(sys.store, step.k), ProcAfter(sys, step))
  {
    var p := sys.procs[step.k];
    var recs := Recs(sys.store, step.k);
    match step
    case Grant(_, h, addr) => GrantKeeps(recs, p, h, addr);
    case DriverFree(_, ok) =>
      if ok {
        FreeSucceeded(HandleMap(p.host, recs), p);
      } else {
        FreeFailed(HandleMap(p.host, recs), p);
      }
    case Destroy(_, h) => DestroyedConserves(HandleMap(p.host, recs), p, h);
    case Write(_, addr, val) => HandleMapFrame(p.host, recs, addr, val);
    case Exit(_) => ExitKeeps(recs, p);
    case _ =>
  }

  // Steps that change the store.

  lemma AppendUnique(host: Host, recs: seq<Rec>, rec: Rec)
    requires UniqueHandles(host, recs) && FindRec(host, recs, Deref(host, rec.ptr)) == -1
    ensures UniqueHandles(host, recs + [rec])
  {
  }

  lemma RegisteredConserves(view: map<Word, nat>, p: Proc, free: bool)
    requires Conserved(view, p) && p.phase.Granted?
    ensures var h := Deref(p.host, p.phase.addr);
            Conserved(if free then view[h := p.phase.bytes as nat] else view, Registered(p, free))
  {
  }

  lemma RegisterRecs(recs: seq<Rec>, p: Proc, free: bool)
    requires ProcAccounted(recs, p) && p.phase.Granted?
    ensures FindRec(p.host, recs, Deref(p.host, p.phase.addr)) == -1
    ensures ProcAccounted(AddedRecs(recs, p.host, p.phase.addr, p.phase.bytes, free), Registered(p, free))
  {
    var rec := Rec(p.phase.addr, p.phase.bytes);
    FoundIsMapped(p.host, recs, Deref(p.host, rec.ptr));
    RegisteredConserves(HandleMap(p.host, recs), p, free);
    AppendUnique(p.host, recs, rec);
    HandleMapAppend(p.host, recs, rec);
  }

  lemma UnregisteredConserves(view: map<Word, nat>, p: Proc, h: Word)
    requires Conserved(view, p) && p.phase.Idle?
    ensures Conserved(view - {h}, p.(phase := Freeing(h)))
  {
  }

  lemma UnregisterRecs(recs: seq<Rec>, p: Proc, h: Word)
    requires ProcAccounted(recs, p) && p.phase.Idle?
    ensures ProcAccounted(RemovedRecs(recs, p.host, h), p.(phase := Freeing(h)))
  {
    HandleMapRemove(p.host, recs, h);
    UnregisteredConserves(HandleMap(p.host, recs), p, h);
  }

  lemma RegisterKeeps(sys: Sys, k: Key)
    requires Safe(sys) && Accounted(sys) && Enabled(sys, Register(k))
    ensures Accounted(Apply(sys, Register(k)))
  {
    var p := sys.procs[k];
    var st := sys.store;
    RegisterRecs(Recs(st, k), p, FirstEmpty(st.s) != -1);
    AddRefinesLedger(st, p.host, k, p.phase.addr, p.phase.bytes);
    var sys' := Apply(sys, Register(k));
    forall j | j in sys'.procs ensures ProcAccounted(Recs(sys'.store, j), sys'.procs[j]) {
      if j != k {
        AddIsolated(st, p.host, k, p.phase.addr, p.phase.bytes, j);
      }
    }
  }

  lemma UnregisterKeeps(sys: Sys, k: Key, h: Word)
    requires Safe(sys) && Accounted(sys) && Enabled(sys, Unregister(k, h))
    ensures Accounted(Apply(sys, Unregister(k, h)))
  {
    var p := sys.procs[k];
    UnregisterRecs(Recs(sys.store, k), p, h);
    RemoveRefinesLedger(sys.store, p.host, k, h);
    var sys' := Apply(sys, Unregister(k, h));
    forall j | j in sys'.procs ensures ProcAccounted(Recs(sys'.store, j), sys'.procs[j]) {
      if j != k {
        RemoveIsolated(sys.store, p.host, k, h, j);
      }
    }
  }

  lemma OneAccountChanges(sys: Sys, k: Key, p: Proc)
    requires Accounted(sys) && ProcAccounted(Recs(sys.store, k), p)
    ensures Accounted(Sys(sys.store, sys.procs[k := p]))
  {
  }

  /** Every orderly step keeps the accounts. */
  lemma StepAccounted(sys: Sys, step: Step)
    requires Safe(sys) && Accounted(sys) && Enabled(sys, step) && Orderly(sys, step)
    ensures Accounted(Apply(sys, step))
  {
    if step.Register? {
      RegisterKeeps(sys, step.k);
    } else if step.Unregister? {
      UnregisterKeeps(sys, step.k, step.h);
    } else {
      if step.Start? {
        NewcomerHasNoRecords(sys, step.k);
      } else {
        LocalKeeps(sys, step);
      }
      OneAccountChanges(sys, step.k, ProcAfter(sys, step));
    }
  }

  ghost predicate OrderlyRun(sys: Sys, run: Run)
    requires Safe(sys) && Allowed(sys, run)
    decreases run
  {
    run.Done? ||
    (Orderly(sys, run.first)
     && (StepSafe(sys, run.first); OrderlyRun(Apply(sys, run.first), run.rest)))
  }

  lemma {:induction false} RunAccounted(sys: Sys, run: Run)
    requires Safe(sys) && Accounted(sys) && Allowed(sys, run) && OrderlyRun(sys, run)
    ensures Accounted(After(sys, run))
    decreases run
  {
    if run.Then? {
      StepSafe(sys, run.first);
      StepAccounted(sys, run.first);
      RunAccounted(Apply(sys, run.first), run.rest);
    }
  }

  /** Every state reached by an orderly run from the start is accounted for. */
  lemma ReachedAccounted(rows: nat, slots: nat, run: Run)
    requires FromStart(rows, slots, run) && OrderlyRun(Initial(rows, slots), run)
    ensures Accounted(Reached(rows, slots, run))
  {
    RunAccounted(Initial(rows, slots), run);
  }

  // What the accounts are.

  /** Between calls, or approved and not yet at the driver. */
  predicate AtRest(p: Proc) {
    p.phase.Idle? || p.phase.Approved?
  }

  /** The entries of `m` whose handle `other` does not have. */
  function Unmatched(m: map<Word, nat>, other: map<Word, nat>): map<Word, nat> {
    map h | h in m && h !in other :: m[h]
  }

  lemma AccountsLocal(view: map<Word, nat>, p: Proc)
    requires Conserved(view, p) && AtRest(p)
    ensures p.unrecorded == Unmatched(p.driver, view)
    ensures p.stale == Unmatched(view, p.driver)
    ensures forall h :: h in p.driver && h in view ==> p.driver[h] == view[h]
  {
    var both := p.driver + p.stale;
    forall h ensures h in both <==> h in p.driver || h in p.stale {
    }
    forall h ensures h in both <==> h in view || h in p.unrecorded {
    }
    forall h | h in both
      ensures both[h] == if h in p.driver then p.driver[h] else p.stale[h]
      ensures both[h] == if h in view then view[h] else p.unrecorded[h]
    {
    }
  }

  /**
   * For a process at rest, `unrecorded` is exactly what the driver holds under handles that no record has,
   * `stale` exactly what is recorded under handles the driver does not hold, and on common handles the ledger
   * and the driver agree on the bytes.
   */
  lemma AccountsExact(sys: Sys, k: Key)
    requires Accounted(sys) && k in sys.procs && AtRest(sys.procs[k])
    ensures var p := sys.procs[k];
            var view := HandleMap(p.host, Recs(sys.store, k));
            && p.unrecorded == Unmatched(p.driver, view)
            && p.stale == Unmatched(view, p.driver)
            && (forall h :: h in p.driver && h in view ==> p.driver[h] == view[h])
  {
    AccountsLocal(HandleMap(sys.procs[k].host, Recs(sys.store, k)), sys.procs[k]);
  }

  lemma MirrorLocal(view: map<Word, nat>, p: Proc)
    requires Conserved(view, p) && AtRest(p)
    ensures p.driver == view <==> p.unrecorded == map[] && p.stale == map[]
  {
    if p.driver == view {
      CancelLeft(view, p.stale, p.unrecorded);
      assert p.stale.Keys * p.unrecorded.Keys == {};
    }
    assert p.stale == map[] ==> p.driver + p.stale == p.driver;
    assert p.unrecorded == map[] ==> view + p.unrecorded == view;
  }

  /** A process at rest has recorded what the driver holds for it when both accounts are empty, and only then. */
  lemma MirrorExact(sys: Sys, k: Key)
    requires Accounted(sys) && k in sys.procs && AtRest(sys.procs[k])
    ensures var p := sys.procs[k];
            p.driver == HandleMap(p.host, Recs(sys.store, k)) <==> p.unrecorded == map[] && p.stale == map[]
  {
    MirrorLocal(HandleMap(sys.procs[k].host, Recs(sys.store, k)), sys.procs[k]);
  }

  // The steps that open a gap.

  /** Not a record for which there is no slot, nor a failed free of a live handle, nor the destruction of an array. */
  predicate Faithful(sys: Sys, step: Step)
    requires Enabled(sys, step)
  {
    && (step.Register? ==> var p := sys.procs[step.k]; Stores(sys.store, p.host, step.k, p.phase.addr))
    && (step.DriverFree? && !step.ok ==> sys.procs[step.k].phase.handle !in sys.procs[step.k].driver)
    && !step.Destroy?
  }

  ghost predicate Balanced(p: Proc) {
    p.unrecorded == map[] && p.stale == map[]
  }

  ghost predicate NothingAmiss(sys: Sys) {
    forall k :: k in Live(sys) ==> Balanced(sys.procs[k])
  }

  lemma FaithfulLocal(sys: Sys, step: Step)
    requires Enabled(sys, step) && Orderly(sys, step)
    requires !step.Start? ==> Balanced(sys.procs[step.k])
    ensures (ProcAfter(sys, step).alive ==> Balanced(ProcAfter(sys, step))) <==> Faithful(sys, step)
  {
    if step.Register? && !Faithful(sys, step) {
      assert Deref(sys.procs[step.k].host, sys.procs[step.k].phase.addr) in ProcAfter(sys, step).unrecorded;
    } else if step.DriverFree? && !Faithful(sys, step) {
      assert sys.procs[step.k].phase.handle in ProcAfter(sys, step).unrecorded;
    } else if step.Destroy? {
      assert step.h in ProcAfter(sys, step).stale;
    }
  }

  /** From a state with nothing amiss, a step leaves nothing amiss exactly when it is none of those three. */
  lemma FaithfulExact(sys: Sys, step: Step)
    requires Safe(sys) && Enabled(sys, step) && Orderly(sys, step) && NothingAmiss(sys)
    ensures NothingAmiss(Apply(sys, step)) <==> Faithful(sys, step)
  {
    AmissAfter(sys, Apply(sys, step), step.k, ProcAfter(sys, step));
    FaithfulLocal(sys, step);
  }

  lemma AmissAfter(sys: Sys, sys': Sys, k: Key, p: Proc)
    requires NothingAmiss(sys) && sys'.procs == sys.procs[k := p]
    ensures NothingAmiss(sys') <==> (p.alive ==> Balanced(p))
    ensures k in Live(sys) ==> Balanced(sys.procs[k])
  {
    assert k in sys'.procs && sys'.procs[k] == p;
    assert forall j :: j != k ==> (j in Live(sys') <==> j in Live(sys));
  }

  ghost predicate FaithfulRun(sys: Sys, run: Run)
    requires Safe(sys) && Allowed(sys, run)
    decreases run
  {
    run.Done? ||
    (Faithful(sys, run.first)
     && (StepSafe(sys, run.first); FaithfulRun(Apply(sys, run.first), run.rest)))
  }

  lemma {:induction false} FaithfulKeeps(sys: Sys, run: Run)
    requires Safe(sys) && Allowed(sys, run) && OrderlyRun(sys, run) && FaithfulRun(sys, run) && NothingAmiss(sys)
    ensures NothingAmiss(After(sys, run))
    decreases run
  {
    if run.Then? {
      StepSafe(sys, run.first);
      FaithfulExact(sys, run.first);
      FaithfulKeeps(Apply(sys, run.first), run.rest);
    }
  }

  /** After any orderly run without those steps, a process at rest has recorded exactly what the driver holds for it. */
  lemma MirrorHolds(rows: nat, slots: nat, run: Run, k: Key)
    requires FromStart(rows, slots, run) && OrderlyRun(Initial(rows, slots), run)
    requires FaithfulRun(Initial(rows, slots), run)
    requires k in Live(Reached(rows, slots, run))
    ensures var sys := Reached(rows, slots, run); var p := sys.procs[k];
            AtRest(p) ==> p.driver == HandleMap(p.host, Recs(sys.store, k))
  {
    ReachedAccounted(rows, slots, run);
    FaithfulKeeps(Initial(rows, slots), run);
    var sys := Reached(rows, slots, run);
    if AtRest(sys.procs[k]) {
      assert Balanced(sys.procs[k]);
      MirrorExact(sys, k);
    }
  }

  // Bytes.

  lemma {:induction false} SumMapUnion<K>(a: map<K, nat>, b: map<K, nat>)
    requires a.Keys !! b.Keys
    ensures SumMap(a + b) == SumMap(a) + SumMap(b)
    decreases |b.Keys|
  {
    if b.Keys == {} {
      assert a + b == a;
    } else {
      var k :| k in b.Keys;
      var c, v := b - {k}, b[k];
      MinusSet(b, k, v);
      SumMapUnion(a, c);
      SumMapPut(c, k, v);
      UnionPut(a, c, k, v);
    }
  }

  lemma UnionPut<K>(a: map<K, nat>, c: map<K, nat>, k: K, v: nat)
    requires k !in a && k !in c
    ensures SumMap(a + c[k := v]) == SumMap(a + c) + v
  {
    SetRight(a, c, k, v);
    SumMapPut(a + c, k, v);
  }

  lemma SumMapPut<K>(m: map<K, nat>, k: K, v: nat)
    requires k !in m
    ensures SumMap(m[k := v]) == SumMap(m) + v
  {
    SumMapAt(m[k := v], k);
    assert m[k := v] - {k} == m;
  }

  lemma BytesLocal(recs: seq<Rec>, p: Proc)
    requires ProcAccounted(recs, p) && !p.phase.Freeing?
    ensures SumMap(p.driver) + SumMap(p.stale) ==
            SumRecs(recs) + SumMap(p.unrecorded) + if p.phase.Granted? then p.phase.bytes else 0
  {
    var view := HandleMap(p.host, recs);
    SumMapUnion(p.driver, p.stale);
    SumMapUnion(view, p.unrecorded);
    HandleMapTotal(p.host, recs);
    if p.phase.Granted? {
      SumMapPut(view + p.unrecorded, Deref(p.host, p.phase.addr), p.phase.bytes);
    }
  }

  /** In the middle of a free the freed handle is left out of every account. */
  lemma BytesDuringFree(recs: seq<Rec>, p: Proc)
    requires ProcAccounted(recs, p) && p.phase.Freeing?
    ensures var h := p.phase.handle;
            SumMap(p.driver - {h}) + SumMap(p.stale - {h}) == SumRecs(recs) + SumMap(p.unrecorded - {h})
  {
    var h := p.phase.handle;
    var view := HandleMap(p.host, recs);
    MinusSum(p.driver, p.stale, h);
    MinusSum(view, p.unrecorded, h);
    MinusAbsent(view, h);
    SumMapUnion(p.driver - {h}, p.stale - {h});
    SumMapUnion(view, p.unrecorded - {h});
    HandleMapTotal(p.host, recs);
  }

  /**
   * Conservation of bytes, after any orderly run: held by the driver plus stale is recorded plus unrecorded, plus
   * the grant not yet recorded; in the middle of a free, the same without the freed handle.
   */
  lemma BytesConserved(rows: nat, slots: nat, run: Run, k: Key)
    requires FromStart(rows, slots, run) && OrderlyRun(Initial(rows, slots), run)
    requires k in Reached(rows, slots, run).procs
    ensures var sys := Reached(rows, slots, run); var p := sys.procs[k];
            if p.phase.Freeing? then
              var h := p.phase.handle;
              SumMap(p.driver - {h}) + SumMap(p.stale - {h}) ==
              Recorded(sys.store, k) + SumMap(p.unrecorded - {h})
            else
              SumMap(p.driver) + SumMap(p.stale) ==
              Recorded(sys.store, k) + SumMap(p.unrecorded) + if p.phase.Granted? then p.phase.bytes else 0
  {
    ReachedAccounted(rows, slots, run);
    var sys := Reached(rows, slots, run);
    if sys.procs[k].phase.Freeing? {
      BytesDuringFree(Recs(sys.store, k), sys.procs[k]);
    } else {
      BytesLocal(Recs(sys.store, k), sys.procs[k]);
    }
  }
}
