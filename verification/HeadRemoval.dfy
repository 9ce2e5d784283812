/** Removal as written: what it keeps at every position, and what exactly it breaks at the head. */
module HeadRemoval {
  import opened Words
  import opened Slots
  import opened Rows
  import opened ProbeTable
  import opened Chains
  import opened Store
  import opened Refinement
  import opened ReRegistration
  import opened Capacity
  import opened Usage
  import opened UsageWalk

  /** The handle is the first record of process `k`: the facts about its row. */
  lemma HeadRow(st: Store, host: Host, k: Key, h: Word)
    requires WF(st) && PosOf(st, host, k, h) == 0
    ensures var r := Find(st.t, k); var c := ChainOfKey(st, k);
            && InUse(st, r) && st.t[r].key == k && RowChainOK(st, r) && c == ChainAt(st, r) && c != []
            && 0 <= c[0] < |st.s| && st.t[r].entry == c[0]
            && Recs(st, k) == Records(st.s, c) && Recs(st, k)[0] == SlotRec(st.s, c[0])
    ensures RemoveAsWritten(st, host, k, h) ==
            Store(st.t, st.s[ChainOfKey(st, k)[0] := st.s[ChainOfKey(st, k)[0]].ShallowDelete()])
  {
    KeyRow(st, k);
    var c := ChainOfKey(st, k);
    ChainInBounds(st.s, st.t[Find(st.t, k)].entry, c);
    assert LinkOK(st.s, c, 0);
  }

  /**
   * A head removal as written leaves the process with no reachable record; its entry names an empty slot with no
   * successor, so that a search for the tail runs on to index -1; and the link walk of the usage count adds up
   * that slot's bytes, the ones just freed, and nothing else. So does the usage count as written.
   */
  lemma HeadRemovedAsWritten(st: Store, host: Host, k: Key, h: Word)
    requires WF(st) && PosOf(st, host, k, h) == 0
    ensures var st' := RemoveAsWritten(st, host, k, h);
            var g := st'.t[Find(st'.t, k)].entry;
            && 0 <= g < |st'.s| && st'.s[g].Empty() && st'.s[g].next == -1
            && Recs(st', k) == []
            && LinkReading(st', k) == HeadBytes(st', Find(st'.t, k)) == Recs(st, k)[0].bytes
  {
    HeadRow(st, host, k, h);
    var st' := RemoveAsWritten(st, host, k, h);
    assert LinkBytes(st'.s, -1, |st'.s| - 1) == 0;
  }

  /** The process's reading is right afterwards exactly when the freed bytes happen to equal all the bytes left. */
  lemma HeadRemovedReadingExact(st: Store, host: Host, k: Key, h: Word)
    requires WF(st) && PosOf(st, host, k, h) == 0
    ensures WF(Remove(st, host, k, h))
    ensures LinkReading(RemoveAsWritten(st, host, k, h), k) == Recorded(Remove(st, host, k, h), k)
            <==> Recs(st, k)[0].bytes == SumRecs(Recs(st, k)[1..])
  {
    HeadRemovedAsWritten(st, host, k, h);
    RemoveRefinesLedger(st, host, k, h);
    assert Without(Recs(st, k), 0) == Recs(st, k)[1..];
  }

  /** One allocation and its free, by a process without records: the bytes stay charged, though nothing is held. */
  lemma AllocateThenFree(st: Store, host: Host, k: Key, a: Word, b: Word)
    requires WF(st) && Room(st.t, k) && a != 0 && FirstEmpty(st.s) != -1
    requires Recs(st, k) == []
    ensures WF(Add(st, host, k, a, b))
    ensures var mid := Add(st, host, k, a, b); var h := Deref(host, a);
            && Find(mid.t, k) != -1
            && LinkReading(RemoveAsWritten(mid, host, k, h), k) == b
            && HeadBytes(RemoveAsWritten(mid, host, k, h), Find(mid.t, k)) == b
            && Recorded(Remove(mid, host, k, h), k) == 0
  {
    var mid := Add(st, host, k, a, b);
    FreshAdded(st, host, k, a, b);
    assert |ChainOfKey(st, k)| == |Recs(st, k)|;
    HeadRemovedAsWritten(mid, host, k, Deref(host, a));
    RemoveRefinesLedger(mid, host, k, Deref(host, a));
    assert Recs(mid, k) == [Rec(a, b)];
  }

  /** At every position, removal as written leaves every other process's row, slots and records identical. */
  lemma RemoveAsWrittenIsolated(st: Store, host: Host, k: Key, h: Word, k2: Key)
    requires WF(st) && k2 != k
    ensures var st' := RemoveAsWritten(st, host, k, h);
            && st'.t == st.t
            && ChainOfKey(st', k2) == ChainOfKey(st, k2)
            && Recs(st', k2) == Recs(st, k2)
  {
    RemoveAsWrittenExact(st, host, k, h);
    if PosOf(st, host, k, h) != 0 {
      RemoveIsolated(st, host, k, h, k2);
    } else if Find(st.t, k2) != -1 {
      HeadRow(st, host, k, h);
      KeyRow(st, k2);
      var q := Find(st.t, k2);
      var st' := RemoveAsWritten(st, host, k, h);
      assert Apart(st, Find(st.t, k), q);
      ChainFrame(st.s, st'.s, st.t[q].entry, ChainAt(st, q));
      ChainFound(st'.s, st.t[q].entry, ChainAt(st, q));
    }
  }

  /** Removal as written leaks slots exactly when it takes the head of a chain with more than one record. */
  lemma RemoveAsWrittenLeaks(st: Store, host: Host, k: Key, h: Word)
    requires WF(st) && NoLeak(st)
    ensures NoLeak(RemoveAsWritten(st, host, k, h)) <==> PosOf(st, host, k, h) != 0 || |Recs(st, k)| == 1
  {
    RemoveAsWrittenExact(st, host, k, h);
    if PosOf(st, host, k, h) != 0 {
      RemoveNoLeak(st, host, k, h);
    } else {
      HeadRow(st, host, k, h);
      if |Recs(st, k)| == 1 {
        LoneHeadLeaksNothing(st, host, k, h);
      } else {
        RestLeaks(st, host, k, h);
      }
    }
  }

  lemma AfterHead(st: Store, host: Host, k: Key, h: Word, q: int)
    requires WF(st) && PosOf(st, host, k, h) == 0 && InUse(st, q)
    ensures var st' := RemoveAsWritten(st, host, k, h);
            ChainAt(st', q) == if q == Find(st.t, k) then [] else ChainAt(st, q)
  {
    HeadRow(st, host, k, h);
    if q != Find(st.t, k) {
      FindRefinesLookup(st.t, st.t[q].key, q);
      FindRefinesLookup(st.t, k, q);
      RemoveAsWrittenIsolated(st, host, k, h, st.t[q].key);
    }
  }

  lemma RestLeaks(st: Store, host: Host, k: Key, h: Word)
    requires WF(st) && PosOf(st, host, k, h) == 0 && |ChainOfKey(st, k)| > 1
    ensures !NoLeak(RemoveAsWritten(st, host, k, h))
  {
    HeadRow(st, host, k, h);
    var st' := RemoveAsWritten(st, host, k, h);
    var r, x := Find(st.t, k), ChainOfKey(st, k)[1];
    ChainInBounds(st.s, st.t[r].entry, ChainOfKey(st, k));
    forall q ensures !OwnedBy(st', q, x) {
      if InUse(st', q) {
        AfterHead(st, host, k, h, q);
        if q != r {
          assert Apart(st, r, q);
        }
      }
    }
    assert !st'.s[x].Empty();
  }

  lemma StillOwned(st: Store, host: Host, k: Key, h: Word, x: int) returns (q: int)
    requires WF(st) && NoLeak(st) && PosOf(st, host, k, h) == 0 && |ChainOfKey(st, k)| == 1
    requires 0 <= x < |st.s| && !RemoveAsWritten(st, host, k, h).s[x].Empty()
    ensures OwnedBy(RemoveAsWritten(st, host, k, h), q, x)
  {
    HeadRow(st, host, k, h);
    q :| OwnedBy(st, q, x);
    AfterHead(st, host, k, h, q);
  }

  lemma LoneHeadLeaksNothing(st: Store, host: Host, k: Key, h: Word)
    requires WF(st) && NoLeak(st) && PosOf(st, host, k, h) == 0 && |ChainOfKey(st, k)| == 1
    ensures NoLeak(RemoveAsWritten(st, host, k, h))
  {
    var st' := RemoveAsWritten(st, host, k, h);
    forall x | 0 <= x < |st'.s| && !st'.s[x].Empty() ensures exists q :: OwnedBy(st', q, x) {
      var q := StillOwned(st, host, k, h, x);
    }
  }

  /** As written, the round trip of a fresh handle is the intended one exactly when the process had records. */
  lemma AddThenRemoveAsWritten(st: Store, host: Host, k: Key, a: Word, b: Word)
    requires WF(st) && Room(st.t, k) && a != 0
    requires PosOf(st, host, k, Deref(host, a)) == -1 && FirstEmpty(st.s) != -1
    ensures WF(Add(st, host, k, a, b))
    ensures var mid := Add(st, host, k, a, b); var h := Deref(host, a);
            RemoveAsWritten(mid, host, k, h) == Remove(mid, host, k, h) <==> Recs(st, k) != []
  {
    FreshAdded(st, host, k, a, b);
    assert |ChainOfKey(st, k)| == |Recs(st, k)|;
    RemoveAsWrittenExact(Add(st, host, k, a, b), host, k, Deref(host, a));
  }

  lemma OtherRowAfterHead(st: Store, host: Host, k: Key, h: Word, q: int)
    requires WF(st) && PosOf(st, host, k, h) == 0 && InUse(st, q) && q != Find(st.t, k)
    ensures var e := RemoveAsWritten(st, host, k, h);
            && InUse(e, q) && RowChainOK(e, q) && ChainAt(e, q) == ChainAt(st, q)
            && Records(e.s, ChainAt(st, q)) == Records(st.s, ChainAt(st, q))
            && ChainOfKey(st, k) != [] && ChainOfKey(st, k)[0] !in ChainAt(st, q)
  {
    HeadRow(st, host, k, h);
    var e := RemoveAsWritten(st, host, k, h);
    var c := ChainAt(st, q);
    assert RowChainOK(st, q) && Apart(st, Find(st.t, k), q);
    ChainFrame(st.s, e.s, st.t[q].entry, c);
    ChainFound(e.s, st.t[q].entry, c);
    ChainInBounds(st.s, st.t[q].entry, c);
  }

  /** Adding a fresh handle appends the first empty slot to a sound row, whatever the other rows are like. */
  lemma AppendedToRow(e: Store, r: int, host: Host, a: Word, b: Word)
    requires InUse(e, r) && RowChainOK(e, r) && a != 0 && FirstEmpty(e.s) != -1
    requires FindRec(host, Records(e.s, ChainAt(e, r)), Deref(host, a)) == -1
    ensures var e' := AddAt(e, r, host, a, b); var g := FirstEmpty(e.s);
            && |e'.t| == |e.t| && IsChain(e'.s, e'.t[r].entry, ChainAt(e, r) + [g])
            && (forall q :: 0 <= q < |e.t| && q != r ==> e'.t[q] == e.t[q])
            && |e'.s| == |e.s| && e'.s[g] == GMem(a, b, -1)
            && (forall x :: 0 <= x < |e.s| && x != g ==> (e'.s[x].Empty() <==> e.s[x].Empty()))
  {
    var g, c := FirstEmpty(e.s), ChainAt(e, r);
    ChainInBounds(e.s, e.t[r].entry, c);
    var s1 := e.s[g := GMem(a, b, -1)];
    ChainFrame(e.s, s1, e.t[r].entry, c);
    ChainFound(s1, e.t[r].entry, c);
    if e.t[r].entry == -1 {
      NilChain(e.s, c);
      assert c + [g] == [g];
      assert LinkOK(s1, [g], 0);
    } else {
      ChainAppend(e.s, e.t[r].entry, c, g, a, b);
      assert LinkOK(s1, c, |c| - 1);
    }
  }

  /**
   * The freed head is still the entry of its row. The next record of another process goes to the first empty
   * slot, and the two rows stay apart exactly when that is another slot; otherwise both lead to it.
   */
  lemma FreedHeadShared(st: Store, host: Host, k: Key, h: Word, r2: int, host2: Host, a: Word, b: Word)
    requires WF(st) && PosOf(st, host, k, h) == 0
    requires InUse(st, r2) && r2 != Find(st.t, k) && a != 0
    requires FindRec(host2, Records(st.s, ChainAt(st, r2)), Deref(host2, a)) == -1
    ensures InUse(RemoveAsWritten(st, host, k, h), r2) && RowChainOK(RemoveAsWritten(st, host, k, h), r2)
    ensures ChainOfKey(st, k) != [] && FirstEmpty(RemoveAsWritten(st, host, k, h).s) != -1
    ensures var st2 := AddAt(RemoveAsWritten(st, host, k, h), r2, host2, a, b);
            var g, head, r := FirstEmpty(RemoveAsWritten(st, host, k, h).s), ChainOfKey(st, k)[0], Find(st.t, k);
            && InUse(st2, r) && InUse(st2, r2)
            && (Apart(st2, r, r2) <==> g != head)
            && (g == head ==> IsChain(st2.s, st2.t[r].entry, [g]))
            && IsChain(st2.s, st2.t[r2].entry, ChainAt(st, r2) + [g])
  {
    HeadRow(st, host, k, h);
    OtherRowAfterHead(st, host, k, h, r2);
    var e := RemoveAsWritten(st, host, k, h);
    var g, head, r := FirstEmpty(e.s), ChainOfKey(st, k)[0], Find(st.t, k);
    assert e.s[head].Empty();
    AppendedToRow(e, r2, host2, a, b);
    var st2 := AddAt(e, r2, host2, a, b);
    ChainFound(st2.s, st2.t[r2].entry, ChainAt(st, r2) + [g]);
    if g == head {
      assert LinkOK(st2.s, [g], 0);
      ChainFound(st2.s, head, [g]);
      assert g in ChainAt(st2, r) && g in ChainAt(st2, r2);
    } else {
      assert ChainAt(st2, r) == [];
    }
  }

  // The process's own next allocation.

  /** Where the search for the tail from `idx` stops, -1 if it runs off the end of the links. */
  function TailFrom(s: seq<GMem>, idx: int, fuel: nat): int
    decreases fuel
  {
    if fuel == 0 || !(0 <= idx < |s|) then -1
    else if s[idx].IsTail() then idx
    else TailFrom(s, s[idx].next, fuel - 1)
  }

  /** On a chain the search stops at the last link. */
  lemma {:induction false} TailFound(s: seq<GMem>, g: int, c: seq<int>, fuel: nat)
    requires IsChain(s, g, c) && c != [] && |c| <= fuel
    ensures TailFrom(s, g, fuel) == c[|c| - 1]
    decreases fuel
  {
    assert LinkOK(s, c, 0);
    if |c| > 1 {
      assert LinkOK(s, c, 1);
      ChainTail(s, g, c);
      TailFound(s, s[g].next, c[1..], fuel - 1);
    }
  }

  /**
   * After its own head was removed as written, a process finds its handle nowhere, since its entry is empty, and
   * its next record goes to the first empty slot. That makes the store well formed again exactly when the slot is
   * the freed head's, which then is the tail of its own chain, so that nothing is linked. From any other slot the
   * search for the tail runs from the empty entry to index -1.
   */
  lemma OwnNextAllocation(st: Store, host: Host, k: Key, h: Word, a: Word, b: Word)
    requires WF(st) && PosOf(st, host, k, h) == 0 && a != 0
    ensures ChainOfKey(st, k) != [] && FirstEmpty(RemoveAsWritten(st, host, k, h).s) != -1
    ensures var e := RemoveAsWritten(st, host, k, h); var g, head := FirstEmpty(e.s), ChainOfKey(st, k)[0];
            var st2 := Store(e.t, e.s[g := GMem(a, b, -1)]);
            && e.t[Find(st.t, k)].entry == head
            && (WF(st2) <==> g == head)
            && TailFrom(st2.s, head, |st2.s|) == (if g == head then head else -1)
            && (g == head ==> Recs(st2, k) == [Rec(a, b)])
  {
    HeadRow(st, host, k, h);
    var e := RemoveAsWritten(st, host, k, h);
    var g, head, r := FirstEmpty(e.s), ChainOfKey(st, k)[0], Find(st.t, k);
    assert e.s[head].Empty();
    var st2 := Store(e.t, e.s[g := GMem(a, b, -1)]);
    if g == head {
      assert LinkOK(st2.s, [g], 0);
      forall q | InUse(st, q) && q != r ensures Untouched(st, st2, q, [g]) {
        assert Apart(st, r, q);
      }
      assert OnlyRow(st, st2, r, k, [g]);
      RowUpdateWF(st, st2, r, k, [g]);
      RowUpdateSelf(st, st2, r, k, [g]);
      assert Records(st2.s, [g]) == [Rec(a, b)];
    } else {
      assert st2.s[head].Empty() && st2.s[head].next == -1;
      assert TailFrom(st2.s, -1, |st2.s| - 1) == -1;
      if WF(st2) {
        EntryFilled(st2, r);
      }
    }
  }
}
