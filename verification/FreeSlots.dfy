/** What adding and removing do to every slot, and what the free slots' links mean for the usage count as written. */
module FreeSlots {
  import opened Words
  import opened Slots
  import opened Rows
  import opened ProbeTable
  import opened Chains
  import opened Store
  import opened Refinement
  import opened ReRegistration
  import opened Capacity
  import opened Usage
  import opened UsageWalk

  /** A slot without a record has no successor. */
  ghost predicate FreeUnlinked(s: seq<GMem>) {
    forall x :: 0 <= x < |s| && s[x].Empty() ==> s[x].next == -1
  }

  // Every slot, operation by operation.

  /** A fresh handle fills the first empty slot, last on its chain; no other slot's address, bytes or link changes. */
  lemma AddFills(st: Store, host: Host, k: Key, a: Word, b: Word)
    requires WF(st) && Room(st.t, k) && a != 0
    requires PosOf(st, host, k, Deref(host, a)) == -1 && FirstEmpty(st.s) != -1
    ensures var st' := Add(st, host, k, a, b);
            var g, c := FirstEmpty(st.s), ChainOfKey(st, k);
            && |st'.t| == |st.t| && |st'.s| == |st.s|
            && forall x :: 0 <= x < |st.s| ==>
                 && SlotRec(st'.s, x) == (if x == g then Rec(a, b) else SlotRec(st.s, x))
                 && st'.s[x].next == (if x == g then -1
                                      else if c != [] && x == c[|c| - 1] then g
                                      else st.s[x].next)
  {
    EnterKeeps(st, k);
    var e, r, g := Store(Entered(st.t, k), st.s), RowFor(st.t, k), FirstEmpty(st.s);
    assert RowChainOK(e, r);
    var c := ChainAt(e, r);
    var s1 := Stored(e, r, host, a, b).0;
    ChainInBounds(e.s, e.t[r].entry, c);
    ChainFound(s1, e.t[r].entry, c);
    if e.t[r].entry != -1 {
      assert LinkOK(e.s, c, 0);
    } else {
      NilChain(e.s, c);
    }
  }

  /**
   * Removing, with the entry moved or not, empties one slot, which keeps its bytes and loses its successor; the
   * link before it skips it, and no other slot's address, bytes or link changes.
   */
  lemma RemoveEmpties(st: Store, host: Host, k: Key, h: Word)
    requires WF(st) && PosOf(st, host, k, h) != -1
    ensures RemoveAsWritten(st, host, k, h).s == Remove(st, host, k, h).s
    ensures var st' := Remove(st, host, k, h);
            var i, c := PosOf(st, host, k, h), ChainOfKey(st, k);
            && 0 <= i < |c| && |st'.t| == |st.t| && |st'.s| == |st.s|
            && forall x :: 0 <= x < |st.s| ==>
                 && SlotRec(st'.s, x) == (if x == c[i] then Rec(0, st.s[x].bytes) else SlotRec(st.s, x))
                 && st'.s[x].next == (if x == c[i] then -1
                                      else if i > 0 && x == c[i - 1] then At(c, i + 1)
                                      else st.s[x].next)
  {
    KeyRow(st, k);
    var c := ChainOfKey(st, k);
    ChainInBounds(st.s, st.t[Find(st.t, k)].entry, c);
    assert LinkOK(st.s, c, PosOf(st, host, k, h));
  }

  // The invariant.

  lemma AddKeepsFree(st: Store, host: Host, k: Key, a: Word, b: Word)
    requires WF(st) && FreeUnlinked(st.s) && Room(st.t, k) && a != 0
    ensures |Add(st, host, k, a, b).t| == |st.t| && |Add(st, host, k, a, b).s| == |st.s|
    ensures FreeUnlinked(Add(st, host, k, a, b).s)
  {
    var st', c := Add(st, host, k, a, b), ChainOfKey(st, k);
    if PosOf(st, host, k, Deref(host, a)) != -1 {
      KeyRow(st, k);
      ChainInBounds(st.s, st.t[Find(st.t, k)].entry, c);
      AddOverwrites(st, host, k, a, b);
      forall x | 0 <= x < |st'.s| && st'.s[x].Empty() ensures st'.s[x].next == -1 {
        assert SlotRec(st'.s, x).ptr == 0;
      }
    } else if FirstEmpty(st.s) != -1 {
      if c != [] {
        KeyRow(st, k);
        ChainInBounds(st.s, st.t[Find(st.t, k)].entry, c);
      }
      AddFills(st, host, k, a, b);
      forall x | 0 <= x < |st'.s| && st'.s[x].Empty() ensures st'.s[x].next == -1 {
        assert SlotRec(st'.s, x).ptr == 0;
      }
    } else {
      AddChangesOneRow(st, host, k, a, b);
    }
  }

  lemma RemoveKeepsFree(st: Store, host: Host, k: Key, h: Word)
    requires WF(st) && FreeUnlinked(st.s)
    ensures |Remove(st, host, k, h).t| == |st.t| && |Remove(st, host, k, h).s| == |st.s|
    ensures FreeUnlinked(Remove(st, host, k, h).s)
  {
    if PosOf(st, host, k, h) != -1 {
      RemoveEmpties(st, host, k, h);
      KeyRow(st, k);
      var st', c := Remove(st, host, k, h), ChainOfKey(st, k);
      ChainInBounds(st.s, st.t[Find(st.t, k)].entry, c);
      forall x | 0 <= x < |st'.s| && st'.s[x].Empty() ensures st'.s[x].next == -1 {
        assert SlotRec(st'.s, x).ptr == 0;
      }
    }
  }

  /**
   * On initialised arrays, and after every addition and removal, as written too and at every position, a slot
   * without a record has no successor.
   */
  lemma FreeSlotsUnlinked(st: Store, host: Host, k: Key, a: Word, b: Word, rows: nat, slots: nat)
    requires WF(st) && FreeUnlinked(st.s)
    ensures FreeUnlinked(InitialStore(rows, slots).s)
    ensures Room(st.t, k) && a != 0 ==> FreeUnlinked(Add(st, host, k, a, b).s)
    ensures FreeUnlinked(Remove(st, host, k, a).s) && FreeUnlinked(RemoveAsWritten(st, host, k, a).s)
  {
    if Room(st.t, k) && a != 0 {
      AddKeepsFree(st, host, k, a, b);
    }
    RemoveKeepsFree(st, host, k, a);
  }

  // What it means for the usage count as written.

  /** Slot `x` holds the last record of row `p`. */
  ghost predicate LastOf(st: Store, p: int, x: int) {
    InUse(st, p) && ChainAt(st, p) != [] && ChainAt(st, p)[|ChainAt(st, p)| - 1] == x
  }

  lemma LinkEnds(s: seq<GMem>, g: int, c: seq<int>, x: int)
    requires IsChain(s, g, c) && x in c
    ensures 0 <= x < |s| && (s[x].next <= -1 <==> c[|c| - 1] == x)
  {
    var j: nat :| j < |c| && c[j] == x;
    assert LinkOK(s, c, j);
    if j < |c| - 1 {
      assert LinkOK(s, c, j + 1);
      NoRepeat(s, g, c, j, |c| - 1);
    }
  }

  lemma LastIsOwner(st: Store, p: int, q: int, x: int)
    requires WF(st) && LastOf(st, p, x) && OwnedBy(st, q, x)
    ensures p == q
  {
    assert OwnedBy(st, p, x);
  }

  lemma OwnedSlotEnds(st: Store, q: int, x: int)
    requires WF(st) && OwnedBy(st, q, x)
    ensures 0 <= x < |st.s| && (st.s[x].next <= -1 <==> LastOf(st, q, x))
  {
    assert RowChainOK(st, q);
    LinkEnds(st.s, st.t[q].entry, ChainAt(st, q), x);
  }

  /** There is a slot `x`, and it is free or holds some row's last record. */
  ghost predicate FreeOrLast(st: Store, x: int) {
    0 <= x < |st.s| && (st.s[x].Empty() || exists p :: LastOf(st, p, x))
  }

  lemma FilledSlotEnds(st: Store, x: int)
    requires WF(st) && NoLeak(st) && 0 <= x < |st.s| && !st.s[x].Empty()
    ensures st.s[x].next <= -1 <==> exists p :: LastOf(st, p, x)
  {
    var q :| OwnedBy(st, q, x);
    OwnedSlotEnds(st, q, x);
    if p :| LastOf(st, p, x) {
      LastIsOwner(st, p, q, x);
    }
  }

  lemma SlotEnds(st: Store, x: int)
    requires WF(st) && NoLeak(st) && FreeUnlinked(st.s)
    ensures FreeOrLast(st, x) <==> 0 <= x < |st.s| && st.s[x].next <= -1
  {
    if 0 <= x < |st.s| && !st.s[x].Empty() {
      FilledSlotEnds(st, x);
    }
  }

  lemma NoEntry(st: Store, i: nat)
    requires WF(st) && InUse(st, i)
    ensures st.t[i].entry <= -1 <==> ChainAt(st, i) == []
  {
    assert RowChainOK(st, i);
    ChainInBounds(st.s, st.t[i].entry, ChainAt(st, i));
  }

  /**
   * The written walk of a row in use ends exactly when the row has no record, or the slot numbered like the row
   * exists and is free or holds some row's last record.
   */
  lemma WalkEndsWhere(st: Store, i: nat)
    requires WF(st) && NoLeak(st) && FreeUnlinked(st.s) && InUse(st, i)
    ensures EndsAtOnce(st, i) <==> ChainAt(st, i) == [] || FreeOrLast(st, i)
  {
    NoEntry(st, i);
    SlotEnds(st, i);
  }

  lemma RoomAtFirst(rows: nat, slots: nat, k: Key)
    requires rows > 0
    ensures WF(InitialStore(rows, slots)) && Room(InitialStore(rows, slots).t, k)
    ensures Recs(InitialStore(rows, slots), k) == [] && ChainOfKey(InitialStore(rows, slots), k) == []
  {
    var st := InitialStore(rows, slots);
    InitialOK(rows, slots);
    RoomExact(st.t, k);
    assert !st.t[Probe(k, rows, 0)].stat.Exist?;
    FindRefinesLookup(st.t, k, -1);
  }

  lemma FirstAdded(rows: nat, slots: nat, host: Host, k: Key, a: Word, b: Word)
    requires rows > 0 && slots > 0 && a != 0
    ensures WF(InitialStore(rows, slots)) && Room(InitialStore(rows, slots).t, k)
    ensures var st' := Add(InitialStore(rows, slots), host, k, a, b); var r := RowFor(InitialStore(rows, slots).t, k);
            && WF(st') && 0 <= r < |st'.t| == rows && |st'.s| == slots
            && Keys(st'.t) == {k} && Find(st'.t, k) == r && ChainAt(st', r) == [0]
            && SlotRec(st'.s, 0) == Rec(a, b)
            && forall x :: 0 <= x < slots ==> st'.s[x].next == -1
  {
    var st := InitialStore(rows, slots);
    RoomAtFirst(rows, slots, k);
    InitialOK(rows, slots);
    AddRefinesLedger(st, host, k, a, b);
    AddFills(st, host, k, a, b);
    AddChangesOneRow(st, host, k, a, b);
    RowUpdateSelf(st, Add(st, host, k, a, b), RowFor(st.t, k), k, [0]);
  }

  lemma LoneRow(st: Store, k: Key, r: nat, live: set<Key>)
    requires WF(st) && Keys(st.t) == {k} && Find(st.t, k) == r && r < |st.t| && ChainAt(st, r) == [0]
    ensures OnlyHeadsWeigh(st, live, |st.t|)
    ensures forall j :: Recorded(st, j) == if j == k then SlotRec(st.s, 0).bytes else 0
  {
    forall i | 0 <= i < |st.t| && Counted(st, live, i) ensures TailBytes(st, i) == 0 {
      HeldIsKey(st.t, i, st.t[i].key);
      FindRefinesLookup(st.t, k, i);
    }
    forall j ensures Recorded(st, j) == if j == k then SlotRec(st.s, 0).bytes else 0 {
      FindRefinesLookup(st.t, j, -1);
      if j == k {
        assert Recs(st, k) == [SlotRec(st.s, 0)];
        assert SumRecs(Recs(st, k)[1..]) == 0;
      } else {
        assert Recs(st, j) == [];
      }
    }
  }

  lemma LoneTotal(st: Store, k: Key, b: nat, live: set<Key>)
    requires WF(st) && forall j :: Recorded(st, j) == if j == k then b else 0
    ensures Used(st, live) == if k in live then b else 0
  {
    var m := map j | j in live :: Recorded(st, j);
    UsedIsLedgerTotal(st, live);
    SumMapZero(m - {k});
    if k in live {
      SumMapAt(m, k);
    } else {
      MinusNothing(m, k);
    }
  }

  /**
   * The first allocation on fresh arrays, for every key and every length: the written walk of its row ends exactly
   * when the slab has a slot of the row's number, then with exactly the request's bytes, and the total of first
   * records is the true usage.
   */
  lemma FirstAllocationCounted(rows: nat, slots: nat, host: Host, k: Key, a: Word, b: Word, live: set<Key>)
    requires rows > 0 && slots > 0 && a != 0
    ensures WF(InitialStore(rows, slots)) && Room(InitialStore(rows, slots).t, k)
    ensures var st' := Add(InitialStore(rows, slots), host, k, a, b); var r := RowFor(InitialStore(rows, slots).t, k);
            && InUse(st', r) && |st'.t| == rows && |st'.s| == slots
            && (EndsAtOnce(st', r) <==> r < slots)
            && (r < slots ==> forall n: nat :: n >= 1 ==> StandsAt(st', r, n) <= -1 && AddedAfter(st', r, n) == b)
            && HeadsUpTo(st', live, rows) == Used(st', live) == if k in live then b else 0
  {
    FirstAdded(rows, slots, host, k, a, b);
    var st' := Add(InitialStore(rows, slots), host, k, a, b);
    var r := RowFor(InitialStore(rows, slots).t, k);
    assert RowChainOK(st', r);
    assert st'.t[r].entry == 0 && HeadBytes(st', r) == SlotRec(st'.s, 0).bytes;
    if r < slots {
      forall n: nat | n >= 1 ensures StandsAt(st', r, n) <= -1 && AddedAfter(st', r, n) == b {
        assert StandsAt(st', r, 0) == 0 && StandsAt(st', r, 1) <= -1;
        StaysEnded(st', r, 1, n);
        EndedWalkAddsHead(st', r, n);
      }
    }
    LoneRow(st', k, r, live);
    LoneTotal(st', k, b, live);
    UsageAsWrittenExact(st', live);
  }

  /** When a handle is registered again, the written walk of its row reads the new bytes if it was the first record. */
  lemma ReRegisteredHeadBytes(st: Store, host: Host, k: Key, a: Word, b: Word)
    requires WF(st) && Room(st.t, k) && a != 0
    requires PosOf(st, host, k, Deref(host, a)) != -1
    ensures Find(st.t, k) != -1 && Add(st, host, k, a, b).t == st.t
    ensures var r := Find(st.t, k);
            HeadBytes(Add(st, host, k, a, b), r) ==
            if PosOf(st, host, k, Deref(host, a)) == 0 then b else HeadBytes(st, r)
  {
    AddOverwrites(st, host, k, a, b);
    KeyRow(st, k);
    var r, c := Find(st.t, k), ChainOfKey(st, k);
    ChainInBounds(st.s, st.t[r].entry, c);
    var st' := Add(st, host, k, a, b);
    assert HeadBytes(st', r) == SlotRec(st'.s, c[0]).bytes && HeadBytes(st, r) == SlotRec(st.s, c[0]).bytes;
  }
}
