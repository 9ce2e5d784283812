/** The store refines a two-level ledger: process to records, and record to bytes. */
module Refinement {
  import opened Words
  import opened Slots
  import opened Rows
  import opened ProbeTable
  import opened Chains
  import opened Store

  /** The chain of process `k`; an unregistered process has none. */
  function ChainOfKey(st: Store, k: Key): seq<int> {
    if Find(st.t, k) == -1 then [] else ChainAt(st, Find(st.t, k))
  }

  lemma KeyRow(st: Store, k: Key)
    requires WF(st) && Find(st.t, k) != -1
    ensures var r := Find(st.t, k);
            InUse(st, r) && st.t[r].key == k && RowChainOK(st, r) && Recs(st, k) == Records(st.s, ChainAt(st, r))
  {
  }

  lemma SlotsInUse(st: Store, q: int, x: int)
    requires WF(st) && InUse(st, q) && x in ChainAt(st, q)
    ensures 0 <= x < |st.s| && !st.s[x].Empty()
  {
    assert RowChainOK(st, q);
    InChain(st.s, st.t[q].entry, ChainAt(st, q), x);
  }

  // Adding.

  /** The records after adding: the matching record overwritten, or a new one last if a slot is free. */
  function AddedRecs(recs: seq<Rec>, host: Host, a: Word, b: Word, free: bool): seq<Rec> {
    var i := FindRec(host, recs, Deref(host, a));
    if i != -1 then recs[i := Rec(a, b)]
    else if free then recs + [Rec(a, b)]
    else recs
  }

  function AddedChain(c: seq<int>, i: int, g: int): seq<int> {
    if i == -1 && g != -1 then c + [g] else c
  }

  /** The handle is new to the chain, or is its last record. */
  predicate FreshOrLast(recs: seq<Rec>, host: Host, a: Word) {
    var i := FindRec(host, recs, Deref(host, a));
    i == -1 || i == |recs| - 1
  }

  lemma AddAtFresh(e: Store, r: int, host: Host, k: Key, a: Word, b: Word)
    requires WF(e) && InUse(e, r) && e.t[r].key == k && a != 0
    requires FindRec(host, Records(e.s, ChainAt(e, r)), Deref(host, a)) == -1
    requires FirstEmpty(e.s) != -1
    ensures RowChainOK(e, r)
    ensures var e' := AddAt(e, r, host, a, b); var g := FirstEmpty(e.s); var c := ChainAt(e, r);
            && OnlyRow(e, e', r, k, c + [g])
            && Records(e'.s, c + [g]) == Records(e.s, c) + [Rec(a, b)]
            && forall x :: 0 <= x < |e.s| ==> (e'.s[x].Empty() <==> e.s[x].Empty() && x != g)
  {
    assert RowChainOK(e, r);
    var g := FirstEmpty(e.s);
    var c := ChainAt(e, r);
    var entry := e.t[r].entry;
    var s1 := e.s[g := GMem(a, b, -1)];
    var e' := AddAt(e, r, host, a, b);
    ChainInBounds(e.s, entry, c);
    ChainFound(s1, entry, c) by { ChainFrame(e.s, s1, entry, c); }
    if entry == -1 {
      NilChain(e.s, c);
      EntryWritten(e.t, r, g);
      assert LinkOK(e'.s, [g], 0);
      assert IsChain(e'.s, e'.t[r].entry, [g]);
      assert c + [g] == [g];
    } else {
      ChainAppend(e.s, entry, c, g, a, b);
    }
    forall q | InUse(e, q) && q != r ensures Untouched(e, e', q, c + [g]) {
      assert Apart(e, q, r) && RowChainOK(e, q);
      ChainInBounds(e.s, e.t[q].entry, ChainAt(e, q));
    }
  }

  lemma AddAtFull(e: Store, r: int, host: Host, k: Key, a: Word, b: Word)
    requires WF(e) && InUse(e, r) && e.t[r].key == k && a != 0
    requires FindRec(host, Records(e.s, ChainAt(e, r)), Deref(host, a)) == -1
    requires FirstEmpty(e.s) == -1
    ensures RowChainOK(e, r) && AddAt(e, r, host, a, b) == e
  {
    assert RowChainOK(e, r);
    var c := ChainAt(e, r);
    if e.t[r].entry == -1 {
      assert e.t[r].SetRecEntry(-1) == e.t[r];
    } else {
      assert LinkOK(e.s, c, |c| - 1);
      assert e.s[c[|c| - 1]].SetNext(-1) == e.s[c[|c| - 1]];
    }
  }

  lemma AddAtLast(e: Store, r: int, host: Host, k: Key, a: Word, b: Word)
    requires WF(e) && InUse(e, r) && e.t[r].key == k && a != 0
    requires var c := ChainAt(e, r);
             c != [] && FindRec(host, Records(e.s, c), Deref(host, a)) == |c| - 1
    ensures RowChainOK(e, r)
    ensures var e' := AddAt(e, r, host, a, b); var c := ChainAt(e, r);
            && OnlyRow(e, e', r, k, c) && e'.t == e.t
            && Records(e'.s, c) == Records(e.s, c)[|c| - 1 := Rec(a, b)]
            && forall x :: 0 <= x < |e.s| ==> e'.s[x].next == e.s[x].next && (e'.s[x].Empty() <==> e.s[x].Empty())
  {
    assert RowChainOK(e, r);
    var c := ChainAt(e, r);
    var i := |c| - 1;
    ChainInBounds(e.s, e.t[r].entry, c);
    var s1 := e.s[c[i] := e.s[c[i]].SetRes(a, b)];
    ChainSetRes(e.s, e.t[r].entry, c, i, a, b);
    ChainFound(s1, e.t[r].entry, c);
    var e' := AddAt(e, r, host, a, b);
    assert e' == Store(e.t, s1) by { assert LinkOK(s1, c, i); }
    forall q | InUse(e, q) && q != r ensures Untouched(e, e', q, c) {
      assert Apart(e, q, r);
    }
  }

  /** A row created on the way does not matter to anybody else. */
  lemma OnlyRowAfterEnter(st: Store, e: Store, st': Store, r: int, k: Key, c': seq<int>)
    requires WF(st) && OnlyRow(st, e, r, k, []) && e.s == st.s && Find(st.t, k) == -1
    requires OnlyRow(e, st', r, k, c')
    ensures OnlyRow(st, st', r, k, c')
  {
    forall q | InUse(st, q) && q != r ensures Untouched(st, st', q, c') {
      OtherChainKept(st, e, r, k, [], q);
      assert Untouched(e, st', q, c');
    }
  }

  /** Adding a fresh handle, or overwriting the last record, changes one row's chain and nobody else's. */
  lemma AddChangesOneRow(st: Store, host: Host, k: Key, a: Word, b: Word)
    requires WF(st) && Room(st.t, k) && a != 0
    requires FreshOrLast(Recs(st, k), host, a)
    ensures var st' := Add(st, host, k, a, b);
            var i := PosOf(st, host, k, Deref(host, a));
            var g := FirstEmpty(st.s);
            var c' := AddedChain(ChainOfKey(st, k), i, g);
            && OnlyRow(st, st', RowFor(st.t, k), k, c')
            && Records(st'.s, c') == AddedRecs(Recs(st, k), host, a, b, g != -1)
            && (i == -1 && g == -1 ==> st'.s == st.s)
            && (i != -1 ==> st'.t == st.t && forall x :: 0 <= x < |st.s| ==> st'.s[x].next == st.s[x].next)
            && forall x :: 0 <= x < |st.s| ==>
                             (st'.s[x].Empty() <==> st.s[x].Empty() && !(i == -1 && x == g))
  {
    EnterKeeps(st, k);
    var e := Store(Entered(st.t, k), st.s);
    var r := RowFor(st.t, k);
    var i := PosOf(st, host, k, Deref(host, a));
    var g := FirstEmpty(st.s);
    assert ChainAt(e, r) == ChainOfKey(st, k);
    if i != -1 {
      AddAtLast(e, r, host, k, a, b);
    } else if g != -1 {
      AddAtFresh(e, r, host, k, a, b);
    } else {
      AddAtFull(e, r, host, k, a, b);
      SelfOnlyRow(e, r, k);
    }
    if Find(st.t, k) == -1 {
      OnlyRowAfterEnter(st, e, Add(st, host, k, a, b), r, k, AddedChain(ChainOfKey(st, k), i, g));
    }
  }

  lemma SelfOnlyRow(e: Store, r: int, k: Key)
    requires WF(e) && InUse(e, r) && e.t[r].key == k
    ensures OnlyRow(e, e, r, k, ChainAt(e, r))
  {
  }

  /** `add_gmem` refines one update of the ledger and keeps the invariant. */
  lemma AddRefinesLedger(st: Store, host: Host, k: Key, a: Word, b: Word)
    requires WF(st) && Room(st.t, k) && a != 0
    requires FreshOrLast(Recs(st, k), host, a)
    ensures var st' := Add(st, host, k, a, b);
            && WF(st')
            && Ledger(st') == Ledger(st)[k := AddedRecs(Recs(st, k), host, a, b, FirstEmpty(st.s) != -1)]
            && ChainOfKey(st', k) == AddedChain(ChainOfKey(st, k), PosOf(st, host, k, Deref(host, a)), FirstEmpty(st.s))
            && Keys(st'.t) == Keys(st.t) + {k}
            && Recs(st', k) == AddedRecs(Recs(st, k), host, a, b, FirstEmpty(st.s) != -1)
  {
    var st' := Add(st, host, k, a, b);
    var r := RowFor(st.t, k);
    var c' := AddedChain(ChainOfKey(st, k), PosOf(st, host, k, Deref(host, a)), FirstEmpty(st.s));
    AddChangesOneRow(st, host, k, a, b);
    RowUpdateWF(st, st', r, k, c');
    RowUpdateLedger(st, st', r, k, c');
    RowUpdateSelf(st, st', r, k, c');
  }

  /**
   * A handle already on the chain, wherever it is: its slot holds the new address and bytes, no other slot's
   * address or bytes change, no row changes, and the only link that changes is the tail's, to that slot.
   */
  lemma AddOverwrites(st: Store, host: Host, k: Key, a: Word, b: Word)
    requires WF(st) && Room(st.t, k) && a != 0
    requires PosOf(st, host, k, Deref(host, a)) != -1
    ensures var st' := Add(st, host, k, a, b);
            var i, c := PosOf(st, host, k, Deref(host, a)), ChainOfKey(st, k);
            && 0 <= i < |c| && st'.t == st.t && |st'.s| == |st.s|
            && forall x :: 0 <= x < |st.s| ==>
                 && SlotRec(st'.s, x) == (if x == c[i] then Rec(a, b) else SlotRec(st.s, x))
                 && st'.s[x].next == (if i < |c| - 1 && x == c[|c| - 1] then c[i] else st.s[x].next)
  {
    EnterKeeps(st, k);
    KeyRow(st, k);
    var r := Find(st.t, k);
    var c := ChainAt(st, r);
    ChainInBounds(st.s, st.t[r].entry, c);
    assert LinkOK(st.s, c, 0);
    ChainFound(Stored(st, r, host, a, b).0, st.t[r].entry, c);
  }

  lemma OverwriteIsolated(st: Store, host: Host, k: Key, a: Word, b: Word, k2: Key)
    requires WF(st) && Room(st.t, k) && a != 0 && k2 != k
    requires PosOf(st, host, k, Deref(host, a)) != -1
    ensures var st' := Add(st, host, k, a, b);
            && st'.t == st.t
            && ChainOfKey(st', k2) == ChainOfKey(st, k2)
            && Recs(st', k2) == Recs(st, k2)
  {
    AddOverwrites(st, host, k, a, b);
    KeyRow(st, k);
    var q := Find(st.t, k2);
    if q != -1 {
      KeyRow(st, k2);
      var st' := Add(st, host, k, a, b);
      assert Apart(st, q, Find(st.t, k));
      SlotsSame(st, st', q);
      ChainFrame(st.s, st'.s, st.t[q].entry, ChainAt(st, q));
      ChainFound(st'.s, st.t[q].entry, ChainAt(st, q));
    }
  }

  lemma SlotsSame(st: Store, st': Store, q: int)
    requires WF(st) && InUse(st, q) && |st'.s| == |st.s|
    requires forall x :: x in ChainAt(st, q) && 0 <= x < |st.s| ==>
                           SlotRec(st'.s, x) == SlotRec(st.s, x) && st'.s[x].next == st.s[x].next
    ensures forall x :: x in ChainAt(st, q) && 0 <= x < |st.s| ==> st'.s[x] == st.s[x]
  {
  }

  /** A process that adds leaves every other's row, slots and records identical, even if its own chain breaks. */
  lemma AddIsolated(st: Store, host: Host, k: Key, a: Word, b: Word, k2: Key)
    requires WF(st) && Room(st.t, k) && a != 0 && k2 != k
    ensures var st' := Add(st, host, k, a, b);
            && Find(st'.t, k2) == Find(st.t, k2)
            && (Find(st.t, k2) != -1 ==> st'.t[Find(st.t, k2)] == st.t[Find(st.t, k2)])
            && ChainOfKey(st', k2) == ChainOfKey(st, k2)
            && Recs(st', k2) == Recs(st, k2)
  {
    if PosOf(st, host, k, Deref(host, a)) != -1 {
      OverwriteIsolated(st, host, k, a, b, k2);
    } else {
      AddChangesOneRow(st, host, k, a, b);
      RowUpdateOthers(st, Add(st, host, k, a, b), RowFor(st.t, k), k,
                      AddedChain(ChainOfKey(st, k), -1, FirstEmpty(st.s)), k2);
    }
  }

  /** A handle that is fresh or last has a record after the addition exactly when there is a slot for it. */
  lemma StoresExact(st: Store, host: Host, k: Key, a: Word, b: Word)
    requires WF(st) && Room(st.t, k) && a != 0
    requires FreshOrLast(Recs(st, k), host, a)
    ensures PosOf(Add(st, host, k, a, b), host, k, Deref(host, a)) != -1 <==> Stores(st, host, k, a)
  {
    AddRefinesLedger(st, host, k, a, b);
    var recs, i := Recs(st, k), PosOf(st, host, k, Deref(host, a));
    if i != -1 {
      assert Recs(Add(st, host, k, a, b), k)[i] == Rec(a, b);
    } else if FirstEmpty(st.s) != -1 {
      FindLast(host, recs, Rec(a, b), Deref(host, a));
    }
  }

  /** When no slot is free, adding a new handle changes no slot, no chain and no record. */
  lemma AddToFullSlab(st: Store, host: Host, k: Key, a: Word, b: Word, k2: Key)
    requires WF(st) && Room(st.t, k) && a != 0
    requires PosOf(st, host, k, Deref(host, a)) == -1
    requires forall x :: 0 <= x < |st.s| ==> !st.s[x].Empty()
    ensures var st' := Add(st, host, k, a, b);
            && WF(st') && st'.s == st.s
            && ChainOfKey(st', k2) == ChainOfKey(st, k2)
            && Recs(st', k2) == Recs(st, k2)
            && (Find(st.t, k) != -1 ==> st' == st)
  {
    AddRefinesLedger(st, host, k, a, b);
    AddChangesOneRow(st, host, k, a, b);
    if k2 != k {
      AddIsolated(st, host, k, a, b, k2);
    }
    if Find(st.t, k) != -1 {
      KeyRow(st, k);
      AddAtFull(st, Find(st.t, k), host, k, a, b);
    }
  }

  // Removing.

  /** The records after removing handle `h`: the first match dropped, the order kept. */
  function RemovedRecs(recs: seq<Rec>, host: Host, h: Word): seq<Rec> {
    var i := FindRec(host, recs, h);
    if i == -1 then recs else Without(recs, i)
  }

  function RemovedChain(c: seq<int>, i: int): seq<int>
    requires i < |c|
  {
    if i < 0 then c else Without(c, i)
  }

  lemma RecordsWithout(s: seq<GMem>, c: seq<int>, i: nat)
    requires i < |c|
    requires forall j: nat :: j < |c| ==> 0 <= c[j] < |s|
    requires forall j: nat, k: nat :: j < k < |c| ==> c[j] != c[k]
    ensures Records(Unlinked(s, c, i), Without(c, i)) == Without(Records(s, c), i)
  {
  }

  /** Removing the handle at any position changes one row's chain and nobody else's. */
  lemma RemoveChangesOneRow(st: Store, host: Host, k: Key, h: Word)
    requires WF(st) && PosOf(st, host, k, h) != -1
    ensures Find(st.t, k) != -1
    ensures var st' := Remove(st, host, k, h);
            var i := PosOf(st, host, k, h);
            var c := ChainOfKey(st, k);
            && i < |c|
            && OnlyRow(st, st', Find(st.t, k), k, Without(c, i))
            && Records(st'.s, Without(c, i)) == Without(Recs(st, k), i)
            && forall x :: 0 <= x < |st.s| ==> (st'.s[x].Empty() <==> st.s[x].Empty() || x == c[i])
  {
    KeyRow(st, k);
    var st' := Remove(st, host, k, h);
    var i := PosOf(st, host, k, h);
    var r := Find(st.t, k);
    var c := ChainAt(st, r);
    ChainInBounds(st.s, st.t[r].entry, c);
    ChainUnlink(st.s, st.t[r].entry, c, i);
    RecordsWithout(st.s, c, i);
    if i == 0 {
      EntryWritten(st.t, r, st.s[c[0]].next);
    }
    forall q | InUse(st, q) && q != r ensures Untouched(st, st', q, Without(c, i)) {
      assert Apart(st, q, r);
    }
  }

  /** `remove_gmem` refines one deletion from the ledger and keeps the invariant. */
  lemma RemoveRefinesLedger(st: Store, host: Host, k: Key, h: Word)
    requires WF(st)
    ensures PosOf(st, host, k, h) < |ChainOfKey(st, k)|
    ensures var st' := Remove(st, host, k, h);
            && WF(st')
            && Keys(st'.t) == Keys(st.t)
            && Recs(st', k) == RemovedRecs(Recs(st, k), host, h)
            && (k in Keys(st.t) ==> Ledger(st') == Ledger(st)[k := RemovedRecs(Recs(st, k), host, h)])
            && (k !in Keys(st.t) ==> st' == st)
            && ChainOfKey(st', k) == RemovedChain(ChainOfKey(st, k), PosOf(st, host, k, h))
  {
    var st' := Remove(st, host, k, h);
    var r := Find(st.t, k);
    FindRefinesLookup(st.t, k, r);
    if PosOf(st, host, k, h) != -1 {
      RemoveChangesOneRow(st, host, k, h);
      var c' := Without(ChainOfKey(st, k), PosOf(st, host, k, h));
      RowUpdateWF(st, st', r, k, c');
      RowUpdateLedger(st, st', r, k, c');
      RowUpdateSelf(st, st', r, k, c');
    } else if k in Keys(st.t) {
      assert Ledger(st)[k := Recs(st, k)] == Ledger(st);
    }
  }

  /** A process that removes leaves every other process's row, slots and records identical. */
  lemma RemoveIsolated(st: Store, host: Host, k: Key, h: Word, k2: Key)
    requires WF(st) && k2 != k
    ensures var st' := Remove(st, host, k, h);
            && Find(st'.t, k2) == Find(st.t, k2)
            && (Find(st.t, k2) != -1 ==> st'.t[Find(st.t, k2)] == st.t[Find(st.t, k2)])
            && ChainOfKey(st', k2) == ChainOfKey(st, k2)
            && Recs(st', k2) == Recs(st, k2)
  {
    if PosOf(st, host, k, h) != -1 {
      RemoveChangesOneRow(st, host, k, h);
      RowUpdateOthers(st, Remove(st, host, k, h), Find(st.t, k), k,
                      Without(ChainOfKey(st, k), PosOf(st, host, k, h)), k2);
    }
  }

  lemma FindLast(host: Host, recs: seq<Rec>, rec: Rec, h: Word)
    requires FindRec(host, recs, h) == -1 && Deref(host, rec.ptr) == h
    ensures FindRec(host, recs + [rec], h) == |recs|
  {
    assert (recs + [rec])[|recs|] == rec;
    assert forall j :: 0 <= j < |recs| ==> (recs + [rec])[j] == recs[j];
  }

  lemma WithoutLast<T>(c: seq<T>, x: T)
    ensures Without(c + [x], |c|) == c
  {
  }

  lemma FreshAdded(st: Store, host: Host, k: Key, a: Word, b: Word)
    requires WF(st) && Room(st.t, k) && a != 0
    requires PosOf(st, host, k, Deref(host, a)) == -1 && FirstEmpty(st.s) != -1
    ensures var mid := Add(st, host, k, a, b); var g := FirstEmpty(st.s);
            && WF(mid)
            && ChainOfKey(mid, k) == ChainOfKey(st, k) + [g]
            && Recs(mid, k) == Recs(st, k) + [Rec(a, b)]
            && PosOf(mid, host, k, Deref(host, a)) == |ChainOfKey(st, k)|
            && |mid.s| == |st.s|
            && forall x :: 0 <= x < |st.s| ==> (mid.s[x].Empty() <==> st.s[x].Empty() && x != g)
  {
    AddRefinesLedger(st, host, k, a, b);
    AddChangesOneRow(st, host, k, a, b);
    FindLast(host, Recs(st, k), Rec(a, b), Deref(host, a));
  }

  /** Adding a fresh handle and removing it again undoes everything a process can see, whichever slot was used. */
  lemma AddThenRemove(st: Store, host: Host, k: Key, a: Word, b: Word)
    requires WF(st) && Room(st.t, k) && a != 0
    requires PosOf(st, host, k, Deref(host, a)) == -1 && FirstEmpty(st.s) != -1
    ensures WF(Add(st, host, k, a, b))
    ensures var st' := Remove(Add(st, host, k, a, b), host, k, Deref(host, a));
            && WF(st')
            && (forall k2 :: ChainOfKey(st', k2) == ChainOfKey(st, k2) && Recs(st', k2) == Recs(st, k2))
            && |st'.s| == |st.s|
            && forall x :: 0 <= x < |st.s| ==> (st'.s[x].Empty() <==> st.s[x].Empty())
  {
    var mid := Add(st, host, k, a, b);
    FreshAdded(st, host, k, a, b);
    var st' := Remove(mid, host, k, Deref(host, a));
    RemoveRefinesLedger(mid, host, k, Deref(host, a));
    RemoveChangesOneRow(mid, host, k, Deref(host, a));
    WithoutLast(ChainOfKey(st, k), FirstEmpty(st.s));
    WithoutLast(Recs(st, k), Rec(a, b));
    forall k2 ensures ChainOfKey(st', k2) == ChainOfKey(st, k2) && Recs(st', k2) == Recs(st, k2) {
      if k2 != k {
        AddIsolated(st, host, k, a, b, k2);
        RemoveIsolated(mid, host, k, Deref(host, a), k2);
      }
    }
  }
}
