/**
 * The multi-process protocol. Each intercepted call is split at its accesses to the shared table and to the
 * driver; the pieces of different processes interleave freely. The shared state is the real store.
 */
module Protocol {
  import opened Words
  import opened Rows
  import opened ProbeTable
  import opened Store
  import opened Refinement
  import opened Capacity
  import opened Usage
  import opened Handles
  import opened Admission

  /** Where a single-threaded process stands inside an intercepted call. */
  datatype Phase =
    | Idle
    | Approved(bytes: Word)
    | Granted(addr: Word, bytes: Word)
    | Freeing(handle: Word)

  /**
   * `driver` is what the driver holds for the process, `unrecorded` what it holds without a record and `stale`
   * what is still recorded after the driver let it go. These three are accounts kept beside the run; no step
   * depends on them.
   */
  datatype Proc = Proc(alive: bool, limit: Word, phase: Phase, host: Host,
                       driver: map<Word, nat>, unrecorded: map<Word, nat>, stale: map<Word, nat>)

  datatype Sys = Sys(store: Store, procs: map<Key, Proc>)

  datatype Step =
    | Start(k: Key, limit: Word)
    | Exit(k: Key)
    | Check(k: Key, bytes: Word)
    | Refuse(k: Key)
    | Grant(k: Key, h: Word, addr: Word)
    | Register(k: Key)
    | Unregister(k: Key, h: Word)
    | DriverFree(k: Key, ok: bool)
    | Destroy(k: Key, h: Word)
    | Write(k: Key, addr: Word, val: Word)

  function Live(sys: Sys): set<Key> {
    set k | k in sys.procs && sys.procs[k].alive
  }

  /**
   * When a step can be taken. Start times do not repeat; no admission sum wraps to within the limit; an
   * allocator is given a variable to write; and a process records only where the program survives it: there is
   * a row for it, and the handle is new to its chain or is its last record.
   */
  predicate Enabled(sys: Sys, step: Step) {
    if step.Start? then step.k !in sys.procs
    else
      && step.k in sys.procs && sys.procs[step.k].alive
      && var p := sys.procs[step.k];
         match step
         case Start(_, _) => true
         case Exit(_) => true
         case Check(_, bytes) => p.phase.Idle? && Honest(Used(sys.store, Live(sys)), bytes, p.limit)
         case Refuse(_) => p.phase.Approved?
         case Grant(_, _, addr) => p.phase.Approved? && addr != 0
         case Register(k) =>
           p.phase.Granted? && Room(sys.store.t, k) && FreshOrLast(Recs(sys.store, k), p.host, p.phase.addr)
         case Unregister(_, _) => p.phase.Idle?
         case DriverFree(_, _) => p.phase.Freeing?
         case Destroy(_, _) => p.phase.Idle?
         case Write(_, _, _) => p.phase.Idle?
  }

  // What a step does to the process that takes it.

  function Checked(p: Proc, used: Word, bytes: Word): Proc {
    if Admits(used, bytes, p.limit) then p.(phase := Approved(bytes)) else p
  }

  function GrantedBy(p: Proc, h: Word, addr: Word): Proc
    requires p.phase.Approved?
  {
    p.(phase := Granted(addr, p.phase.bytes), host := p.host[addr := h], driver := p.driver[h := p.phase.bytes as nat])
  }

  function Registered(p: Proc, stored: bool): Proc
    requires p.phase.Granted?
  {
    p.(phase := Idle,
       unrecorded := if stored then p.unrecorded else p.unrecorded[Deref(p.host, p.phase.addr) := p.phase.bytes as nat])
  }

  function Freed(p: Proc, ok: bool): Proc
    requires p.phase.Freeing?
  {
    var h := p.phase.handle;
    if ok then p.(phase := Idle, driver := p.driver - {h}, unrecorded := p.unrecorded - {h}, stale := p.stale - {h})
    else p.(phase := Idle, stale := p.stale - {h},
            unrecorded := if h in p.driver then p.unrecorded[h := p.driver[h]] else p.unrecorded - {h})
  }

  function Destroyed(p: Proc, h: Word): Proc {
    if h !in p.driver then p
    else if h in p.unrecorded then p.(driver := p.driver - {h}, unrecorded := p.unrecorded - {h})
    else p.(driver := p.driver - {h}, stale := p.stale[h := p.driver[h]])
  }

  /** With the process goes what the driver held for it; its records stay. */
  function Exited(p: Proc, recs: seq<Rec>): Proc {
    p.(alive := false, phase := Idle, driver := map[], unrecorded := map[], stale := HandleMap(p.host, recs))
  }

  ghost function ProcAfter(sys: Sys, step: Step): Proc
    requires Enabled(sys, step)
  {
    if step.Start? then Proc(true, step.limit, Idle, map[], map[], map[], map[])
    else
      var p := sys.procs[step.k];
      match step
      case Start(_, _) => p
      case Exit(k) => Exited(p, Recs(sys.store, k))
      case Check(_, bytes) => Checked(p, Used(sys.store, Live(sys)) % U64, bytes)
      case Refuse(_) => p.(phase := Idle)
      case Grant(_, h, addr) => GrantedBy(p, h, addr)
      case Register(k) => Registered(p, Stores(sys.store, p.host, k, p.phase.addr))
      case Unregister(_, h) => p.(phase := Freeing(h))
      case DriverFree(_, ok) => Freed(p, ok)
      case Destroy(_, h) => Destroyed(p, h)
      case Write(_, addr, val) => p.(host := p.host[addr := val])
  }

  ghost function StoreAfter(sys: Sys, step: Step): Store
    requires Safe(sys) && Enabled(sys, step)
  {
    match step
    case Register(k) =>
      var p := sys.procs[k];
      Add(sys.store, p.host, k, p.phase.addr, p.phase.bytes)
    case Unregister(k, h) => Remove(sys.store, sys.procs[k].host, k, h)
    case _ => sys.store
  }

  ghost function Apply(sys: Sys, step: Step): Sys
    requires Safe(sys) && Enabled(sys, step)
  {
    Sys(StoreAfter(sys, step), sys.procs[step.k := ProcAfter(sys, step)])
  }

  function Initial(rows: nat, slots: nat): Sys {
    Sys(InitialStore(rows, slots), map[])
  }

  // The invariant.

  /** Bytes approved for the process and not yet recorded. */
  function Pending(p: Proc): nat {
    match p.phase
    case Approved(b) => b
    case Granted(_, b) => b
    case _ => 0
  }

  ghost predicate ProcSafe(recs: seq<Rec>, p: Proc) {
    && SumRecs(recs) + Pending(p) <= p.limit
    && (p.phase.Granted? ==> p.phase.addr != 0)
  }

  /** The structure is intact, only processes that started have rows, and each process is within its limit. */
  ghost predicate Safe(sys: Sys) {
    && WF(sys.store) && NoLeak(sys.store)
    && Keys(sys.store.t) <= sys.procs.Keys
    && forall k :: k in sys.procs ==> ProcSafe(Recs(sys.store, k), sys.procs[k])
  }

  lemma InitialSafe(rows: nat, slots: nat)
    ensures Safe(Initial(rows, slots))
  {
  }

  lemma CheckedPending(p: Proc, used: nat, bytes: Word)
    requires p.phase.Idle? && Honest(used, bytes, p.limit)
    ensures var q := Checked(p, used % U64, bytes);
            if used + bytes <= p.limit then q == p.(phase := Approved(bytes)) else q == p
  {
    HonestIsExact(used, bytes, p.limit);
  }

  /** A live process's own records are part of what it reads as used. */
  lemma UsedCovers(st: Store, live: set<Key>, k: Key)
    requires WF(st) && k in live
    ensures Recorded(st, k) <= Used(st, live)
  {
    UsedIsLedgerTotal(st, live);
    SumMapAt(map j | j in live :: Recorded(st, j), k);
  }

  lemma LocalSafe(sys: Sys, step: Step)
    requires Safe(sys) && Enabled(sys, step)
    requires !step.Start? && !step.Register? && !step.Unregister?
    ensures ProcSafe(Recs(sys.store, step.k), ProcAfter(sys, step))
  {
    if step.Check? {
      var used := Used(sys.store, Live(sys));
      UsedCovers(sys.store, Live(sys), step.k);
      CheckedPending(sys.procs[step.k], used, step.bytes);
    }
  }

  lemma StoreChanges(sys: Sys, st: Store, k: Key, p: Proc)
    requires Safe(sys) && WF(st) && NoLeak(st) && Keys(st.t) <= sys.procs.Keys + {k}
    requires forall j :: j in sys.procs && j != k ==> Recs(st, j) == Recs(sys.store, j)
    requires ProcSafe(Recs(st, k), p)
    ensures Safe(Sys(st, sys.procs[k := p]))
  {
  }

  lemma OthersAfterAdd(st: Store, host: Host, k: Key, a: Word, b: Word)
    requires WF(st) && NoLeak(st) && Room(st.t, k) && a != 0 && FreshOrLast(Recs(st, k), host, a)
    ensures var st' := Add(st, host, k, a, b);
            && WF(st') && NoLeak(st') && Keys(st'.t) == Keys(st.t) + {k}
            && SumRecs(Recs(st', k)) <= SumRecs(Recs(st, k)) + b
            && forall j :: j != k ==> Recs(st', j) == Recs(st, j)
  {
    AddedBytes(Recs(st, k), host, a, b, FirstEmpty(st.s) != -1);
    AddRefinesLedger(st, host, k, a, b);
    AddNoLeak(st, host, k, a, b);
    forall j | j != k ensures Recs(Add(st, host, k, a, b), j) == Recs(st, j) {
      AddIsolated(st, host, k, a, b, j);
    }
  }

  lemma RegisterSafe(sys: Sys, k: Key)
    requires Safe(sys) && Enabled(sys, Register(k))
    ensures Safe(Apply(sys, Register(k)))
  {
    var p, st := sys.procs[k], sys.store;
    var a, b := p.phase.addr, p.phase.bytes;
    OthersAfterAdd(st, p.host, k, a, b);
    StoreChanges(sys, Add(st, p.host, k, a, b), k, Registered(p, Stores(st, p.host, k, a)));
  }

  lemma UnregisterSafe(sys: Sys, k: Key, h: Word)
    requires Safe(sys) && Enabled(sys, Unregister(k, h))
    ensures Safe(Apply(sys, Unregister(k, h)))
  {
    var p, st := sys.procs[k], sys.store;
    RemovedBytes(Recs(st, k), p.host, h);
    RemoveRefinesLedger(st, p.host, k, h);
    RemoveNoLeak(st, p.host, k, h);
    forall j | j != k ensures Recs(Remove(st, p.host, k, h), j) == Recs(st, j) {
      RemoveIsolated(st, p.host, k, h, j);
    }
    StoreChanges(sys, Remove(st, p.host, k, h), k, p.(phase := Freeing(h)));
  }

  /** A process that has never run has no records. */
  lemma NewcomerHasNoRecords(sys: Sys, k: Key)
    requires Safe(sys) && k !in sys.procs
    ensures Recs(sys.store, k) == []
  {
  }

  lemma OneProcChanges(sys: Sys, k: Key, p: Proc)
    requires Safe(sys) && ProcSafe(Recs(sys.store, k), p)
    ensures Safe(Sys(sys.store, sys.procs[k := p]))
  {
  }

  /** Every step of every process keeps the structure and every quota. */
  lemma StepSafe(sys: Sys, step: Step)
    requires Safe(sys) && Enabled(sys, step)
    ensures Safe(Apply(sys, step))
  {
    if step.Register? {
      RegisterSafe(sys, step.k);
    } else if step.Unregister? {
      UnregisterSafe(sys, step.k, step.h);
    } else {
      if step.Start? {
        NewcomerHasNoRecords(sys, step.k);
      } else {
        LocalSafe(sys, step);
      }
      OneProcChanges(sys, step.k, ProcAfter(sys, step));
    }
  }

  // Runs.

  datatype Run = Done | Then(first: Step, rest: Run)

  /** Each step of the run can be taken where it stands. */
  ghost predicate Allowed(sys: Sys, run: Run)
    requires Safe(sys)
    decreases run
  {
    match run
    case Done => true
    case Then(step, rest) => Enabled(sys, step) && (StepSafe(sys, step); Allowed(Apply(sys, step), rest))
  }

  /** The state after a run. */
  ghost function After(sys: Sys, run: Run): Sys
    requires Safe(sys) && Allowed(sys, run)
    decreases run
  {
    match run
    case Done => sys
    case Then(step, rest) =>
      StepSafe(sys, step);
      After(Apply(sys, step), rest)
  }

  lemma {:induction false} RunSafe(sys: Sys, run: Run)
    requires Safe(sys) && Allowed(sys, run)
    ensures Safe(After(sys, run))
    decreases run
  {
    match run
    case Done =>
    case Then(step, rest) =>
      StepSafe(sys, step);
      RunSafe(Apply(sys, step), rest);
  }

  /** A run from freshly initialised arrays, with no process started. */
  ghost predicate FromStart(rows: nat, slots: nat, run: Run)
    ensures Safe(Initial(rows, slots))
  {
    InitialSafe(rows, slots);
    Allowed(Initial(rows, slots), run)
  }

  ghost function Reached(rows: nat, slots: nat, run: Run): Sys
    requires FromStart(rows, slots, run)
  {
    InitialSafe(rows, slots);
    After(Initial(rows, slots), run)
  }

  /** Every reachable state satisfies the invariant. */
  lemma ReachedSafe(rows: nat, slots: nat, run: Run)
    requires FromStart(rows, slots, run)
    ensures Safe(Reached(rows, slots, run))
  {
    InitialSafe(rows, slots);
    RunSafe(Initial(rows, slots), run);
  }
}
