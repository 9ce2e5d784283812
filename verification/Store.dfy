/** The shared state, process table and slab together, and what adding and removing a record do to it. */
module Store {
  import opened Words
  import opened Slots
  import opened Rows
  import opened ProbeTable
  import opened Chains

  datatype Store = Store(t: seq<RNode>, s: seq<GMem>)

  datatype Rec = Rec(ptr: Word, bytes: Word)

  function ChainAt(st: Store, p: int): seq<int>
    requires 0 <= p < |st.t|
  {
    ChainOf(st.s, st.t[p].entry)
  }

  ghost predicate InUse(st: Store, p: int) {
    0 <= p < |st.t| && st.t[p].stat.Exist?
  }

  ghost predicate RowChainOK(st: Store, p: int)
    requires InUse(st, p)
  {
    IsChain(st.s, st.t[p].entry, ChainAt(st, p))
  }

  ghost predicate Apart(st: Store, p: int, q: int)
    requires InUse(st, p) && InUse(st, q)
  {
    forall x :: x in ChainAt(st, p) ==> x !in ChainAt(st, q)
  }

  /** Every row's chain ends, visits only non-empty slots, and shares no slot with another row's. */
  ghost predicate WF(st: Store) {
    && TableOK(st.t)
    && (forall p :: InUse(st, p) ==> RowChainOK(st, p))
    && (forall p, q :: InUse(st, p) && InUse(st, q) && p != q ==> Apart(st, p, q))
  }

  ghost predicate OwnedBy(st: Store, p: int, x: int) {
    InUse(st, p) && x in ChainAt(st, p)
  }

  /** Every non-empty slot is on some row's chain. */
  ghost predicate NoLeak(st: Store) {
    forall x :: 0 <= x < |st.s| && !st.s[x].Empty() ==> exists p :: OwnedBy(st, p, x)
  }

  function SlotRec(s: seq<GMem>, x: int): Rec {
    if 0 <= x < |s| then Rec(s[x].ptr, s[x].bytes) else Rec(0, 0)
  }

  function Records(s: seq<GMem>, c: seq<int>): seq<Rec> {
    seq(|c|, i requires 0 <= i < |c| => SlotRec(s, c[i]))
  }

  /** The records of process `k`, oldest first. */
  function Recs(st: Store, k: Key): seq<Rec> {
    var p := Find(st.t, k);
    if p == -1 then [] else Records(st.s, ChainAt(st, p))
  }

  /** What the store stands for: for each registered process its sequence of records. */
  ghost function Ledger(st: Store): map<Key, seq<Rec>> {
    map k | k in Keys(st.t) :: Recs(st, k)
  }

  ghost predicate Untouched(st: Store, st': Store, q: int, c': seq<int>)
    requires InUse(st, q) && |st'.s| == |st.s|
  {
    forall x :: x in ChainAt(st, q) ==> (0 <= x < |st.s| ==> st'.s[x] == st.s[x]) && x !in c'
  }

  /** Only row `r` and its chain change. */
  ghost predicate OnlyRow(st: Store, st': Store, r: int, k: Key, c': seq<int>) {
    && TableOK(st'.t) && |st'.t| == |st.t| && |st'.s| == |st.s|
    && InUse(st', r) && st'.t[r].key == k
    && (InUse(st, r) ==> st.t[r].key == k)
    && (forall q :: 0 <= q < |st.t| && q != r ==> st'.t[q] == st.t[q])
    && IsChain(st'.s, st'.t[r].entry, c')
    && (forall q :: InUse(st, q) && q != r ==> Untouched(st, st', q, c'))
  }

  lemma OtherChainKept(st: Store, st': Store, r: int, k: Key, c': seq<int>, q: int)
    requires WF(st) && OnlyRow(st, st', r, k, c')
    requires InUse(st, q) && q != r
    ensures InUse(st', q) && ChainAt(st', q) == ChainAt(st, q) && RowChainOK(st', q)
    ensures Records(st'.s, ChainAt(st', q)) == Records(st.s, ChainAt(st, q))
    ensures forall x :: x in ChainAt(st, q) ==> x !in c'
  {
    var c := ChainAt(st, q);
    assert RowChainOK(st, q) && Untouched(st, st', q, c');
    ChainFrame(st.s, st'.s, st.t[q].entry, c);
    ChainFound(st'.s, st.t[q].entry, c);
    ChainInBounds(st.s, st.t[q].entry, c);
  }

  lemma RowUpdateWF(st: Store, st': Store, r: int, k: Key, c': seq<int>)
    requires WF(st) && OnlyRow(st, st', r, k, c')
    ensures WF(st') && ChainAt(st', r) == c'
    ensures forall q :: InUse(st', q) && q != r ==> ChainAt(st', q) == ChainAt(st, q)
  {
    ChainFound(st'.s, st'.t[r].entry, c');
    forall q | InUse(st', q) ensures RowChainOK(st', q) {
      if q != r {
        assert InUse(st, q);
        OtherChainKept(st, st', r, k, c', q);
      }
    }
    forall p, q | InUse(st', p) && InUse(st', q) && p != q ensures Apart(st', p, q) {
      if p != r {
        assert InUse(st, p);
        OtherChainKept(st, st', r, k, c', p);
      }
      if q != r {
        assert InUse(st, q);
        OtherChainKept(st, st', r, k, c', q);
      }
      if p != r && q != r {
        assert Apart(st, p, q);
      }
    }
    forall q | InUse(st', q) && q != r ensures ChainAt(st', q) == ChainAt(st, q) {
      assert InUse(st, q);
      OtherChainKept(st, st', r, k, c', q);
    }
  }

  /** Isolation: every other process keeps its row, its chain of slots and its records. */
  lemma RowUpdateOthers(st: Store, st': Store, r: int, k: Key, c': seq<int>, k2: Key)
    requires WF(st) && OnlyRow(st, st', r, k, c') && k2 != k
    ensures Find(st'.t, k2) == Find(st.t, k2)
    ensures Find(st.t, k2) != -1 ==> var q := Find(st.t, k2);
                                     st'.t[q] == st.t[q] && ChainAt(st', q) == ChainAt(st, q)
    ensures Recs(st', k2) == Recs(st, k2)
  {
    var q := Find(st.t, k2);
    FindRefinesLookup(st.t, k2, q);
    var q' := Find(st'.t, k2);
    FindRefinesLookup(st'.t, k2, q');
    FindRefinesLookup(st'.t, k2, q);
    FindRefinesLookup(st.t, k2, q');
    if q != -1 {
      OtherChainKept(st, st', r, k, c', q);
    }
  }

  lemma RowUpdateSelf(st: Store, st': Store, r: int, k: Key, c': seq<int>)
    requires WF(st) && OnlyRow(st, st', r, k, c')
    ensures Find(st'.t, k) == r
    ensures Recs(st', k) == Records(st'.s, c')
  {
    FindRefinesLookup(st'.t, k, r);
    ChainFound(st'.s, st'.t[r].entry, c');
  }

  /** Changing one row changes one entry of the ledger. */
  lemma RowUpdateLedger(st: Store, st': Store, r: int, k: Key, c': seq<int>)
    requires WF(st) && OnlyRow(st, st', r, k, c')
    ensures Keys(st'.t) == Keys(st.t) + {k}
    ensures Ledger(st') == Ledger(st)[k := Records(st'.s, c')]
  {
    RowUpdateSelf(st, st', r, k, c');
    FindRefinesLookup(st'.t, k, r);
    forall k2 | k2 != k
      ensures k2 in Keys(st'.t) <==> k2 in Keys(st.t)
      ensures Recs(st', k2) == Recs(st, k2)
    {
      RowUpdateOthers(st, st', r, k, c', k2);
      FindRefinesLookup(st.t, k2, -1);
      FindRefinesLookup(st'.t, k2, -1);
    }
  }

  // Finding the row to use.

  function RowFor(t: seq<RNode>, k: Key): int {
    if Find(t, k) != -1 then Find(t, k) else InsertPos(t, k)
  }

  /** The key has a row, or an insertion finds one; otherwise the program dereferences a null pointer. */
  predicate Room(t: seq<RNode>, k: Key) {
    RowFor(t, k) != -1
  }

  /** There is room exactly when the key has a row or one of its probes meets a row that is not in use. */
  lemma RoomExact(t: seq<RNode>, k: Key)
    requires TableOK(t)
    ensures Room(t, k) <==> k in Keys(t) || exists i: nat :: i < |t| && !t[Probe(k, |t|, i)].stat.Exist?
  {
    FindRefinesLookup(t, k, -1);
    if k !in Keys(t) && |t| > 0 {
      InsertLands(t, k, 0);
      if InsertPos(t, k) != -1 {
        FreshRowFree(t, k);
      }
    }
  }

  function Entered(t: seq<RNode>, k: Key): seq<RNode>
    requires Room(t, k)
  {
    if Find(t, k) != -1 then t else t[InsertPos(t, k) := RNode(k, -1, Exist)]
  }

  /** Where there is room, finding or creating the row enrols the key. */
  lemma EnteredEnrols(t: seq<RNode>, k: Key)
    requires TableOK(t) && Room(t, k)
    ensures Entered(t, k) == TableStep(t, Enrol(k)) && Keys(Entered(t, k)) == Keys(t) + {k}
  {
    FindRefinesLookup(t, k, Find(t, k));
    EnrolAdds(t, k);
  }

  /** Finding or creating the row keeps the invariant and every record; a new row has an empty chain. */
  lemma EnterKeeps(st: Store, k: Key)
    requires WF(st) && Room(st.t, k)
    ensures var e := Store(Entered(st.t, k), st.s); var r := RowFor(st.t, k);
            && WF(e) && InUse(e, r) && e.t[r].key == k && Find(e.t, k) == r
            && Recs(e, k) == Recs(st, k)
            && Records(e.s, ChainAt(e, r)) == Recs(st, k)
            && (Find(st.t, k) == -1 ==> ChainAt(e, r) == [] && OnlyRow(st, e, r, k, []))
  {
    var e := Store(Entered(st.t, k), st.s);
    var r := RowFor(st.t, k);
    FindRefinesLookup(st.t, k, r);
    if Find(st.t, k) == -1 {
      InsertRefinesUpdate(st.t, k, RNode(k, -1, Exist));
      ChainFound(e.s, -1, []);
      assert OnlyRow(st, e, r, k, []);
      RowUpdateWF(st, e, r, k, []);
      RowUpdateSelf(st, e, r, k, []);
    }
  }

  // Slots.

  function FirstEmptyFrom(s: seq<GMem>, i: nat): (g: int)
    ensures g == -1 ==> forall x :: i <= x < |s| ==> !s[x].Empty()
    ensures g != -1 ==> i <= g < |s| && s[g].Empty() && forall x :: i <= x < g ==> !s[x].Empty()
    decreases |s| - i
  {
    if i >= |s| then -1
    else if s[i].Empty() then i
    else FirstEmptyFrom(s, i + 1)
  }

  function FirstEmpty(s: seq<GMem>): int { FirstEmptyFrom(s, 0) }

  /** The first record whose variable currently holds handle `h`, -1 if none. */
  function FindRec(host: Host, recs: seq<Rec>, h: Word): (i: int)
    ensures i == -1 ==> forall j :: 0 <= j < |recs| ==> Deref(host, recs[j].ptr) != h
    ensures i != -1 ==> 0 <= i < |recs| && Deref(host, recs[i].ptr) == h
                        && forall j :: 0 <= j < i ==> Deref(host, recs[j].ptr) != h
  {
    if recs == [] then -1
    else if Deref(host, recs[0].ptr) == h then 0
    else
      var i := FindRec(host, recs[1..], h);
      assert forall j :: 0 < j < |recs| ==> recs[j] == recs[1..][j - 1];
      if i == -1 then -1 else i + 1
  }

  // Linking, adding and removing, on values.

  /** Makes `g` the entry of an empty chain, or the successor of a chain's tail unless it is the tail. */
  ghost function Linked(st: Store, r: int, g: int): Store
    requires InUse(st, r) && RowChainOK(st, r)
  {
    var c := ChainAt(st, r);
    if st.t[r].entry == -1 then st.(t := st.t[r := st.t[r].SetRecEntry(g)])
    else
      assert LinkOK(st.s, c, |c| - 1);
      var tail := c[|c| - 1];
      if tail == g then st else st.(s := st.s[tail := st.s[tail].SetNext(g)])
  }

  /** The slab after the record has been written: overwritten, pushed, or not stored because no slot is free. */
  ghost function Stored(st: Store, r: int, host: Host, a: Word, b: Word): (sg: (seq<GMem>, int))
    requires InUse(st, r) && RowChainOK(st, r) && a != 0
    ensures |sg.0| == |st.s|
    ensures IsChain(sg.0, st.t[r].entry, ChainAt(st, r))
  {
    var c := ChainAt(st, r);
    var i := FindRec(host, Records(st.s, c), Deref(host, a));
    ChainInBounds(st.s, st.t[r].entry, c);
    if i != -1 then
      ChainSetRes(st.s, st.t[r].entry, c, i, a, b);
      (st.s[c[i] := st.s[c[i]].SetRes(a, b)], c[i])
    else
      var g := FirstEmpty(st.s);
      if g == -1 then (st.s, -1)
      else
        ChainFrame(st.s, st.s[g := GMem(a, b, -1)], st.t[r].entry, c);
        (st.s[g := GMem(a, b, -1)], g)
  }

  ghost function AddAt(st: Store, r: int, host: Host, a: Word, b: Word): Store
    requires InUse(st, r) && RowChainOK(st, r) && a != 0
  {
    var sg := Stored(st, r, host, a, b);
    ChainFound(sg.0, st.t[r].entry, ChainAt(st, r));
    Linked(Store(st.t, sg.0), r, sg.1)
  }

  /** Registering `b` bytes for the variable at address `a`, as `add_gmem` does for process `k`. */
  ghost function Add(st: Store, host: Host, k: Key, a: Word, b: Word): Store
    requires WF(st) && Room(st.t, k) && a != 0
  {
    EnterKeeps(st, k);
    AddAt(Store(Entered(st.t, k), st.s), RowFor(st.t, k), host, a, b)
  }

  /** Where the handle stands in the chain of process `k`. */
  function PosOf(st: Store, host: Host, k: Key, h: Word): int {
    FindRec(host, Recs(st, k), h)
  }

  /** Registering the variable at `a` leaves a record of its handle: a slot is free, or the handle has one already. */
  predicate Stores(st: Store, host: Host, k: Key, a: Word) {
    FirstEmpty(st.s) != -1 || PosOf(st, host, k, Deref(host, a)) != -1
  }

  /** Unregistering handle `h`, as `remove_gmem` does for process `k` with the entry advanced past a removed head. */
  ghost function Remove(st: Store, host: Host, k: Key, h: Word): Store
    requires WF(st)
  {
    var r := Find(st.t, k);
    var i := PosOf(st, host, k, h);
    if r == -1 || i == -1 then st
    else
      assert RowChainOK(st, r);
      var c := ChainAt(st, r);
      ChainInBounds(st.s, st.t[r].entry, c);
      Store(if i == 0 then st.t[r := st.t[r].SetRecEntry(st.s[c[0]].next)] else st.t, Unlinked(st.s, c, i))
  }
}
