/** What a usage reading has to be for a check to keep the quota, whatever computed it. */
module Readings {
  import opened Words
  import opened Rows
  import opened ProbeTable
  import opened Store
  import opened Refinement
  import opened Usage
  import opened UsageWalk
  import opened Admission
  import opened Protocol

  /** Bytes recorded and approved for process `k` if it now checks `request` against `reading`. */
  function CommittedAfterCheck(sys: Sys, k: Key, reading: Word, request: Word): nat
    requires k in sys.procs
  {
    Recorded(sys.store, k) + Pending(Checked(sys.procs[k], reading, request))
  }

  lemma CheckOutcome(sys: Sys, k: Key, reading: Word, request: Word)
    requires Safe(sys) && k in sys.procs && sys.procs[k].phase.Idle?
    ensures var p := sys.procs[k];
            && Recorded(sys.store, k) <= p.limit
            && CommittedAfterCheck(sys, k, reading, request) ==
               Recorded(sys.store, k) + if Admits(reading, request, p.limit) then request else 0
  {
    assert ProcSafe(Recs(sys.store, k), sys.procs[k]);
  }

  /** A check against this reading keeps every request whose sum does not wrap within the quota. */
  ghost predicate KeepsQuota(sys: Sys, k: Key, reading: Word)
    requires k in sys.procs
  {
    forall request: Word {:trigger CommittedAfterCheck(sys, k, reading, request)} ::
      reading + request < U64 ==> CommittedAfterCheck(sys, k, reading, request) <= sys.procs[k].limit
  }

  /** The same for every request, wrapping ones too. */
  ghost predicate KeepsQuotaAlways(sys: Sys, k: Key, reading: Word)
    requires k in sys.procs
  {
    forall request: Word {:trigger CommittedAfterCheck(sys, k, reading, request)} ::
      CommittedAfterCheck(sys, k, reading, request) <= sys.procs[k].limit
  }

  /**
   * Of a process at rest, a check keeps every request whose sum does not wrap within the quota exactly when
   * the reading is at least what the process itself has recorded.
   */
  lemma AnyReadingExact(sys: Sys, k: Key, reading: Word)
    requires Safe(sys) && k in sys.procs && sys.procs[k].phase.Idle?
    ensures KeepsQuota(sys, k, reading) <==> Recorded(sys.store, k) <= reading
  {
    forall request: Word
      ensures CommittedAfterCheck(sys, k, reading, request) <= sys.procs[k].limit <==>
              (Admits(reading, request, sys.procs[k].limit) ==> Recorded(sys.store, k) + request <= sys.procs[k].limit)
    {
      CheckOutcome(sys, k, reading, request);
    }
    CheckOutcome(sys, k, reading, 0);
    ReadingExact(Recorded(sys.store, k), reading, sys.procs[k].limit);
  }

  /** The bytes of the records after the first of process `k`. */
  function TailOf(st: Store, k: Key): nat {
    if Find(st.t, k) == -1 then 0 else TailBytes(st, Find(st.t, k))
  }

  function HeadOf(st: Store, k: Key): nat {
    if Find(st.t, k) == -1 then 0 else HeadBytes(st, Find(st.t, k))
  }

  lemma RecordedSplits(st: Store, k: Key)
    requires WF(st)
    ensures Recorded(st, k) == HeadOf(st, k) + TailOf(st, k)
  {
    if Find(st.t, k) != -1 {
      KeyRow(st, k);
      HeadAndTail(st, Find(st.t, k));
    }
  }

  lemma {:induction false} HeadsOfOthers(st: Store, live: set<Key>, k: Key, n: nat)
    requires WF(st) && k in live && n <= |st.t|
    ensures HeadsUpTo(st, live, n) ==
            HeadsUpTo(st, live - {k}, n) + if 0 <= Find(st.t, k) < n then HeadOf(st, k) else 0
    decreases n
  {
    if n > 0 {
      HeadsOfOthers(st, live, k, n - 1);
      FindRefinesLookup(st.t, k, n - 1);
    }
  }

  /**
   * With the reading as written, that is when the counted first records cover what the process has recorded;
   * while their total fits a word, when the process's records after its first weigh no more than the first
   * records of the other live processes.
   */
  lemma AsWrittenReadingExact(sys: Sys, k: Key)
    requires Safe(sys) && k in Live(sys) && sys.procs[k].phase.Idle?
    ensures var heads := HeadsUpTo(sys.store, Live(sys), |sys.store.t|); var reading := heads % U64;
            && (KeepsQuota(sys, k, reading) <==> Recorded(sys.store, k) <= reading)
            && (heads < U64 ==>
                  (KeepsQuota(sys, k, reading) <==>
                     TailOf(sys.store, k) <= HeadsUpTo(sys.store, Live(sys) - {k}, |sys.store.t|)))
  {
    var heads := HeadsUpTo(sys.store, Live(sys), |sys.store.t|);
    AnyReadingExact(sys, k, heads % U64);
    CoveredByOthers(sys.store, Live(sys), k);
    if heads < U64 {
      ModIs(heads, U64, 0, heads);
    }
  }

  lemma CoveredByOthers(st: Store, live: set<Key>, k: Key)
    requires WF(st) && k in live
    ensures Recorded(st, k) <= HeadsUpTo(st, live, |st.t|) <==> TailOf(st, k) <= HeadsUpTo(st, live - {k}, |st.t|)
  {
    RecordedSplits(st, k);
    HeadsOfOthers(st, live, k, |st.t|);
  }

  /** With the true reading it is always. */
  lemma TrueReadingKeeps(sys: Sys, k: Key, request: Word)
    requires Safe(sys) && k in Live(sys) && sys.procs[k].phase.Idle?
    requires Used(sys.store, Live(sys)) + request < U64
    ensures CommittedAfterCheck(sys, k, Used(sys.store, Live(sys)), request) <= sys.procs[k].limit
  {
    UsedCovers(sys.store, Live(sys), k);
    AnyReadingExact(sys, k, Used(sys.store, Live(sys)));
  }

  /** Taking usage as zero, it is when the process has recorded nothing, for every request. */
  lemma ZeroUsageCheckExact(sys: Sys, k: Key)
    requires Safe(sys) && k in sys.procs && sys.procs[k].phase.Idle?
    ensures KeepsQuotaAlways(sys, k, 0) <==> Recorded(sys.store, k) == 0
  {
    AnyReadingExact(sys, k, 0);
  }

  /**
   * Wrapping sums included, a check keeps every request within the quota exactly when the process has recorded
   * nothing and either the reading is zero or the limit is the largest word.
   */
  lemma AnyRequestKeepsExact(sys: Sys, k: Key, reading: Word)
    requires Safe(sys) && k in sys.procs && sys.procs[k].phase.Idle?
    ensures KeepsQuotaAlways(sys, k, reading) <==>
            Recorded(sys.store, k) == 0 && (reading == 0 || sys.procs[k].limit == U64 - 1)
  {
    forall request: Word
      ensures CommittedAfterCheck(sys, k, reading, request) <= sys.procs[k].limit <==>
              (Admits(reading, request, sys.procs[k].limit) ==> Recorded(sys.store, k) + request <= sys.procs[k].limit)
    {
      CheckOutcome(sys, k, reading, request);
    }
    CheckOutcome(sys, k, reading, 0);
    AnyRequestExact(Recorded(sys.store, k), reading, sys.procs[k].limit);
  }

  /** For the true reading that is when nothing is used at all, or the process holds nothing under the largest limit. */
  lemma WrapExact(sys: Sys, k: Key, used: Word)
    requires Safe(sys) && k in Live(sys) && sys.procs[k].phase.Idle?
    requires used == Used(sys.store, Live(sys))
    ensures KeepsQuotaAlways(sys, k, used) <==>
            used == 0 || (Recorded(sys.store, k) == 0 && sys.procs[k].limit == U64 - 1)
  {
    UsedCovers(sys.store, Live(sys), k);
    AnyRequestKeepsExact(sys, k, used);
  }
}
