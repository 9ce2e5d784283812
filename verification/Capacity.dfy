/** No slot is lost: the occupied slots are exactly the records. */
module Capacity {
  import opened Words
  import opened Slots
  import opened Rows
  import opened ProbeTable
  import opened Chains
  import opened Store
  import opened Refinement

  function Occupied(s: seq<GMem>): set<int> {
    set x | 0 <= x < |s| && !s[x].Empty()
  }

  /** The number of records on the chains of the first `n` rows. */
  function RecordCount(st: Store, n: nat): nat
    requires n <= |st.t|
    decreases n
  {
    if n == 0 then 0
    else RecordCount(st, n - 1) + if st.t[n - 1].stat.Exist? then |ChainAt(st, n - 1)| else 0
  }

  ghost function OwnedUpTo(st: Store, n: nat): set<int>
    requires n <= |st.t|
    decreases n
  {
    if n == 0 then {}
    else OwnedUpTo(st, n - 1) + if st.t[n - 1].stat.Exist? then SetOf(ChainAt(st, n - 1)) else {}
  }

  lemma {:induction false} OwnedMember(st: Store, n: nat, x: int)
    requires n <= |st.t|
    ensures x in OwnedUpTo(st, n) <==> exists p :: p < n && OwnedBy(st, p, x)
    decreases n
  {
    if n > 0 {
      OwnedMember(st, n - 1, x);
      assert OwnedBy(st, n - 1, x) <==> st.t[n - 1].stat.Exist? && x in SetOf(ChainAt(st, n - 1));
    }
  }

  lemma DisjointSum(a: set<int>, b: set<int>)
    requires a !! b
    ensures |a + b| == |a| + |b|
  {
  }

  /** The chains partition the owned slots. */
  lemma {:induction false} OwnedSize(st: Store, n: nat)
    requires WF(st) && n <= |st.t|
    ensures |OwnedUpTo(st, n)| == RecordCount(st, n)
    decreases n
  {
    if n > 0 {
      OwnedSize(st, n - 1);
      if InUse(st, n - 1) {
        OwnedStep(st, n - 1);
      }
    }
  }

  lemma OwnedStep(st: Store, q: nat)
    requires WF(st) && q < |st.t| && InUse(st, q)
    ensures |OwnedUpTo(st, q) + SetOf(ChainAt(st, q))| == |OwnedUpTo(st, q)| + |ChainAt(st, q)|
  {
    assert RowChainOK(st, q);
    ChainBound(st.s, st.t[q].entry, ChainAt(st, q));
    OwnedApart(st, q);
    DisjointSum(OwnedUpTo(st, q), SetOf(ChainAt(st, q)));
  }

  lemma OwnedApart(st: Store, q: nat)
    requires WF(st) && q < |st.t| && InUse(st, q)
    ensures OwnedUpTo(st, q) !! SetOf(ChainAt(st, q))
  {
    forall x | x in OwnedUpTo(st, q) ensures x !in SetOf(ChainAt(st, q)) {
      OwnedMember(st, q, x);
      var p :| p < q && OwnedBy(st, p, x);
      assert Apart(st, p, q);
    }
  }

  lemma OccupiedIsOwned(st: Store)
    requires WF(st) && NoLeak(st)
    ensures Occupied(st.s) == OwnedUpTo(st, |st.t|)
  {
    forall x ensures x in Occupied(st.s) <==> x in OwnedUpTo(st, |st.t|) {
      OwnedMember(st, |st.t|, x);
      if x in Occupied(st.s) {
        var p :| OwnedBy(st, p, x);
      }
      if x in OwnedUpTo(st, |st.t|) {
        var p :| p < |st.t| && OwnedBy(st, p, x);
        SlotsInUse(st, p, x);
      }
    }
  }

  lemma FullExactly(s: seq<GMem>)
    ensures FirstEmpty(s) == -1 <==> |Occupied(s)| == |s|
  {
    SubsetSize(Occupied(s), UpTo(|s|));
    if FirstEmpty(s) == -1 {
      assert Occupied(s) == UpTo(|s|);
    } else {
      assert FirstEmpty(s) in UpTo(|s|) && FirstEmpty(s) !in Occupied(s);
    }
  }

  /** As many occupied slots as records, and a push fails exactly when that number is the slab's length. */
  lemma CapacityExact(st: Store)
    requires WF(st) && NoLeak(st)
    ensures |Occupied(st.s)| == RecordCount(st, |st.t|)
    ensures FirstEmpty(st.s) == -1 <==> RecordCount(st, |st.t|) == |st.s|
  {
    OwnedSize(st, |st.t|);
    OccupiedIsOwned(st);
    FullExactly(st.s);
  }

  /** Nothing leaks when a row's chain gains or loses exactly the slots that are filled or emptied. */
  lemma NoLeakKept(st: Store, st': Store, r: int, k: Key, c': seq<int>)
    requires WF(st) && NoLeak(st) && OnlyRow(st, st', r, k, c')
    requires forall x :: 0 <= x < |st.s| && !st'.s[x].Empty() && (st.s[x].Empty() || OwnedBy(st, r, x)) ==> x in c'
    ensures NoLeak(st')
  {
    RowUpdateWF(st, st', r, k, c');
    forall x | 0 <= x < |st'.s| && !st'.s[x].Empty() ensures exists p :: OwnedBy(st', p, x) {
      if x in c' {
        assert OwnedBy(st', r, x);
      } else {
        var p :| OwnedBy(st, p, x);
        assert p != r && OwnedBy(st', p, x);
      }
    }
  }

  lemma AddNoLeak(st: Store, host: Host, k: Key, a: Word, b: Word)
    requires WF(st) && NoLeak(st) && Room(st.t, k) && a != 0
    requires FreshOrLast(Recs(st, k), host, a)
    ensures NoLeak(Add(st, host, k, a, b))
  {
    AddChangesOneRow(st, host, k, a, b);
    var r := RowFor(st.t, k);
    var i := PosOf(st, host, k, Deref(host, a));
    FindRefinesLookup(st.t, k, r);
    forall x | OwnedBy(st, r, x) ensures x in ChainOfKey(st, k) {
      assert Holds(st.t, r, k);
    }
    NoLeakKept(st, Add(st, host, k, a, b), r, k, AddedChain(ChainOfKey(st, k), i, FirstEmpty(st.s)));
  }

  lemma InWithout<T>(c: seq<T>, i: nat, x: T)
    requires i < |c| && x in c && x != c[i]
    ensures x in Without(c, i)
  {
  }

  lemma RemoveNoLeak(st: Store, host: Host, k: Key, h: Word)
    requires WF(st) && NoLeak(st)
    ensures NoLeak(Remove(st, host, k, h))
  {
    if PosOf(st, host, k, h) != -1 {
      RemoveChangesOneRow(st, host, k, h);
      var i := PosOf(st, host, k, h);
      var c := ChainOfKey(st, k);
      var r := Find(st.t, k);
      forall x | OwnedBy(st, r, x) && x != c[i] ensures x in Without(c, i) {
        InWithout(c, i, x);
      }
      NoLeakKept(st, Remove(st, host, k, h), r, k, Without(c, i));
    }
  }

  // The start state, and deletion of a row.

  function InitialStore(rows: nat, slots: nat): Store {
    Store(seq(rows, _ => INITIAL_ROW), seq(slots, _ => INITIAL_SLOT))
  }

  lemma InitialOK(rows: nat, slots: nat)
    ensures WF(InitialStore(rows, slots)) && NoLeak(InitialStore(rows, slots))
    ensures Keys(InitialStore(rows, slots).t) == {}
    ensures |InitialStore(rows, slots).t| == rows && |InitialStore(rows, slots).s| == slots
    ensures forall x :: 0 <= x < slots ==>
              SlotRec(InitialStore(rows, slots).s, x) == Rec(0, 0) && InitialStore(rows, slots).s[x].next == -1
  {
  }

  function RowDeleted(st: Store, k: Key): Store {
    var p := Find(st.t, k);
    if p == -1 then st else st.(t := st.t[p := st.t[p].ShallowDelete()])
  }

  lemma DeletedRows(st: Store, k: Key, q: int)
    requires WF(st)
    ensures InUse(RowDeleted(st, k), q) <==> InUse(st, q) && q != Find(st.t, k)
    ensures InUse(RowDeleted(st, k), q) ==> ChainAt(RowDeleted(st, k), q) == ChainAt(st, q)
                                            && RowChainOK(RowDeleted(st, k), q)
  {
  }

  lemma DeleteRowKeepsWF(st: Store, k: Key)
    requires WF(st)
    ensures WF(RowDeleted(st, k))
  {
    var st' := RowDeleted(st, k);
    if Find(st.t, k) != -1 {
      DeleteRefinesRemoval(st.t, k);
      forall q | InUse(st', q) ensures RowChainOK(st', q) {
        DeletedRows(st, k, q);
      }
      forall q, q' | InUse(st', q) && InUse(st', q') && q != q' ensures Apart(st', q, q') {
        DeletedRows(st, k, q);
        DeletedRows(st, k, q');
        assert Apart(st, q, q');
      }
    }
  }

  /** Deleting a row takes one process off the ledger and leaves every other's chain and records. */
  lemma DeleteRowForgets(st: Store, k: Key)
    requires WF(st)
    ensures WF(RowDeleted(st, k))
    ensures var st' := RowDeleted(st, k);
            && st'.t == TableStep(st.t, Drop(k)) && st'.s == st.s
            && Find(st'.t, k) == -1
            && Ledger(st') == Ledger(st) - {k}
            && forall k2 :: k2 != k ==> ChainOfKey(st', k2) == ChainOfKey(st, k2)
  {
    DeleteRowKeepsWF(st, k);
    DropRemoves(st.t, k);
    FindRefinesLookup(RowDeleted(st, k).t, k, -1);
    DeletedLedger(st, k);
    forall k2 | k2 != k ensures ChainOfKey(RowDeleted(st, k), k2) == ChainOfKey(st, k2) {
      DeletedElsewhere(st, k, k2);
    }
  }

  lemma DeletedLedger(st: Store, k: Key)
    requires WF(st) && WF(RowDeleted(st, k))
    ensures Ledger(RowDeleted(st, k)) == Ledger(st) - {k}
  {
    DropRemoves(st.t, k);
    forall k2 | k2 != k ensures Recs(RowDeleted(st, k), k2) == Recs(st, k2) {
      DeletedElsewhere(st, k, k2);
    }
    LedgerMinus(st, RowDeleted(st, k), k);
  }

  lemma LedgerMinus(st: Store, st': Store, k: Key)
    requires Keys(st'.t) == Keys(st.t) - {k}
    requires forall k2 :: k2 != k ==> Recs(st', k2) == Recs(st, k2)
    ensures Ledger(st') == Ledger(st) - {k}
  {
  }

  lemma DeletedElsewhere(st: Store, k: Key, k2: Key)
    requires WF(st) && WF(RowDeleted(st, k)) && k2 != k
    ensures ChainOfKey(RowDeleted(st, k), k2) == ChainOfKey(st, k2) && Recs(RowDeleted(st, k), k2) == Recs(st, k2)
  {
    var st' := RowDeleted(st, k);
    DropRemoves(st.t, k);
    var q := Find(st.t, k2);
    FindRefinesLookup(st.t, k2, q);
    FindRefinesLookup(st'.t, k2, q);
  }

  /** Deleting a row keeps the invariant, and leaks exactly when the row still has records. */
  lemma DeleteRowLeaks(st: Store, k: Key)
    requires WF(st) && NoLeak(st)
    ensures WF(RowDeleted(st, k))
    ensures NoLeak(RowDeleted(st, k)) <==> Recs(st, k) == []
  {
    DeleteRowKeepsWF(st, k);
    var p := Find(st.t, k);
    if p != -1 {
      KeyRow(st, k);
      var c := ChainAt(st, p);
      if c != [] {
        assert OwnedBy(st, p, c[0]);
        LeakedSlot(st, k, c[0]);
      } else {
        EmptyRowLeaksNothing(st, k);
      }
    }
  }

  lemma EmptyRowLeaksNothing(st: Store, k: Key)
    requires WF(st) && NoLeak(st) && Find(st.t, k) != -1 && ChainAt(st, Find(st.t, k)) == []
    ensures NoLeak(RowDeleted(st, k))
  {
    var st' := RowDeleted(st, k);
    forall x | 0 <= x < |st'.s| && !st'.s[x].Empty() ensures exists q :: OwnedBy(st', q, x) {
      var q :| OwnedBy(st, q, x);
      DeletedRows(st, k, q);
      assert OwnedBy(st', q, x);
    }
  }

  lemma LeakedSlot(st: Store, k: Key, x: int)
    requires WF(st) && Find(st.t, k) != -1 && OwnedBy(st, Find(st.t, k), x)
    ensures !NoLeak(RowDeleted(st, k))
  {
    var st' := RowDeleted(st, k);
    SlotsInUse(st, Find(st.t, k), x);
    forall q ensures !OwnedBy(st', q, x) {
      DeletedRows(st, k, q);
      if InUse(st', q) {
        assert Apart(st, Find(st.t, k), q);
      }
    }
    assert !st'.s[x].Empty();
  }
}
