/** Where the operations as written leave the invariant, and exactly when they do not. */
module ReRegistration {
  import opened Words
  import opened Slots
  import opened Rows
  import opened ProbeTable
  import opened Chains
  import opened Store
  import opened Refinement

  lemma NextInRange(s: seq<GMem>, g: int, c: seq<int>)
    requires IsChain(s, g, c) && |c| > 1 && 0 <= g < |s|
    ensures s[g].next >= 0
  {
    assert LinkOK(s, c, 0) && LinkOK(s, c, 1);
  }

  // Adding a handle that is already on the chain.

  /** Following the chain of process `k` ends. */
  ghost predicate ChainEnds(st: Store, k: Key) {
    Find(st.t, k) != -1 ==> exists c :: IsChain(st.s, st.t[Find(st.t, k)].entry, c)
  }

  /** If the tail is linked back to the i-th link, no finite chain follows the same links. */
  lemma {:induction false} CycleFollowed(s: seq<GMem>, g: int, c: seq<int>, i: nat, s': seq<GMem>, d: seq<int>, j: nat)
    requires IsChain(s, g, c) && i < |c|
    requires |s'| == |s| && IsChain(s', g, d)
    requires forall m: nat :: m < |c| ==> 0 <= c[m] < |s|
    requires forall m: nat :: m + 1 < |c| ==> s'[c[m]].next == s[c[m]].next
    requires s'[c[|c| - 1]].next == c[i]
    requires j <= |c|
    ensures j < |d| && d[j] == if j < |c| then c[j] else c[i]
    decreases j
  {
    if j == 0 {
      assert LinkOK(s, c, 0);
    } else {
      CycleFollowed(s, g, c, i, s', d, j - 1);
      assert LinkOK(s', d, j - 1);
      assert LinkOK(s, c, j - 1);
      if j < |c| {
        assert LinkOK(s, c, j);
      } else {
        assert LinkOK(s, c, i);
      }
    }
  }

  lemma CycleNeverEnds(s: seq<GMem>, g: int, c: seq<int>, i: nat, s': seq<GMem>, d: seq<int>)
    requires IsChain(s, g, c) && i < |c|
    requires |s'| == |s|
    requires forall m: nat :: m < |c| ==> 0 <= c[m] < |s|
    requires forall m: nat :: m + 1 < |c| ==> s'[c[m]].next == s[c[m]].next
    requires s'[c[|c| - 1]].next == c[i]
    ensures !IsChain(s', g, d)
  {
    if IsChain(s', g, d) {
      CycleFollowed(s, g, c, i, s', d, i);
      CycleFollowed(s, g, c, i, s', d, |c|);
      NoRepeat(s', g, d, i, |c|);
    }
  }

  lemma AddInnerCycles(st: Store, host: Host, k: Key, a: Word, b: Word)
    requires WF(st) && Room(st.t, k) && a != 0
    requires !FreshOrLast(Recs(st, k), host, a)
    ensures !ChainEnds(Add(st, host, k, a, b), k)
  {
    var st' := Add(st, host, k, a, b);
    EnterKeeps(st, k);
    KeyRow(st, k);
    var r := Find(st.t, k);
    var c := ChainAt(st, r);
    var i := PosOf(st, host, k, Deref(host, a));
    var entry := st.t[r].entry;
    ChainInBounds(st.s, entry, c);
    var s1 := Stored(st, r, host, a, b).0;
    ChainFound(s1, entry, c);
    assert LinkOK(s1, c, 0) && LinkOK(s1, c, |c| - 1);
    assert st'.t == st.t && st'.s == s1[c[|c| - 1] := s1[c[|c| - 1]].SetNext(c[i])];
    forall d ensures !IsChain(st'.s, entry, d) {
      CycleNeverEnds(st.s, entry, c, i, st'.s, d);
    }
  }

  /**
   * Registering as written: the chain still ends, and the whole structure is still well formed, exactly when
   * the handle was not on the chain or was its last record.
   */
  lemma ReRegistrationExact(st: Store, host: Host, k: Key, a: Word, b: Word)
    requires WF(st) && Room(st.t, k) && a != 0
    ensures WF(Add(st, host, k, a, b)) <==> FreshOrLast(Recs(st, k), host, a)
    ensures ChainEnds(Add(st, host, k, a, b), k) <==> FreshOrLast(Recs(st, k), host, a)
  {
    var st' := Add(st, host, k, a, b);
    if FreshOrLast(Recs(st, k), host, a) {
      AddRefinesLedger(st, host, k, a, b);
    } else {
      AddInnerCycles(st, host, k, a, b);
    }
    if WF(st') && Find(st'.t, k) != -1 {
      KeyRow(st', k);
    }
  }

  /** Re-registering the last record changes its address and bytes and no link. */
  lemma ReRegisterLast(st: Store, host: Host, k: Key, a: Word, b: Word)
    requires WF(st) && Room(st.t, k) && a != 0
    requires PosOf(st, host, k, Deref(host, a)) == |Recs(st, k)| - 1 >= 0
    ensures var st' := Add(st, host, k, a, b);
            && st'.t == st.t && |st'.s| == |st.s|
            && (forall x :: 0 <= x < |st.s| ==> st'.s[x].next == st.s[x].next)
            && Recs(st', k) == Recs(st, k)[|Recs(st, k)| - 1 := Rec(a, b)]
  {
    AddChangesOneRow(st, host, k, a, b);
    AddRefinesLedger(st, host, k, a, b);
  }

  lemma NeitherFreshNorLast(recs: seq<Rec>, one: Rec, two: Rec, later: Host)
    ensures !FreshOrLast(recs + [one] + [two], later, one.ptr)
  {
    assert (recs + [one] + [two])[|recs|] == one;
  }

  /** It does fail: two allocations into two variables, then one more into the first, whatever handle it now holds. */
  lemma VariableReusedCycles(st: Store, host: Host, k: Key, a1: Word, a2: Word, b: Word, later: Host)
    requires WF(st) && Room(st.t, k) && a1 != 0 && a2 != 0 && Deref(host, a1) != Deref(host, a2)
    requires PosOf(st, host, k, Deref(host, a1)) == -1 && PosOf(st, host, k, Deref(host, a2)) == -1
    requires FirstEmpty(st.s) != -1
    ensures WF(Add(st, host, k, a1, b)) && Room(Add(st, host, k, a1, b).t, k)
    ensures var one := Add(st, host, k, a1, b);
            FirstEmpty(one.s) != -1 ==>
              var two := Add(one, host, k, a2, b);
              WF(two) && Room(two.t, k) && !ChainEnds(Add(two, later, k, a1, b), k)
  {
    var one := Add(st, host, k, a1, b);
    FreshAdded(st, host, k, a1, b);
    if FirstEmpty(one.s) != -1 {
      FindAfter(host, Recs(st, k), Rec(a1, b), Deref(host, a2));
      FreshAdded(one, host, k, a2, b);
      NeitherFreshNorLast(Recs(st, k), Rec(a1, b), Rec(a2, b), later);
      AddInnerCycles(Add(one, host, k, a2, b), later, k, a1, b);
    }
  }

  lemma FindAfter(host: Host, recs: seq<Rec>, rec: Rec, h: Word)
    requires FindRec(host, recs, h) == -1 && Deref(host, rec.ptr) != h
    ensures FindRec(host, recs + [rec], h) == -1
  {
    assert forall j :: 0 <= j < |recs| ==> (recs + [rec])[j] == recs[j];
  }

  // Removing the head.

  /** The slab after the recursive removal that entered chain `c` with predecessor `prev`. */
  function UnlinkedAfter(s: seq<GMem>, prev: int, c: seq<int>, i: int): seq<GMem>
    requires i < |c|
    requires forall j: nat :: j < |c| ==> 0 <= c[j] < |s|
    requires prev == -1 || 0 <= prev < |s|
  {
    if i < 0 then s
    else
      var p := if i == 0 then prev else c[i - 1];
      var s1 := if p == -1 then s else s[p := s[p].SetNext(s[c[i]].next)];
      s1[c[i] := s1[c[i]].ShallowDelete()]
  }

  /** One step of the recursion past a link that does not match. */
  lemma UnlinkedAfterStep(s: seq<GMem>, prev: int, c: seq<int>, host: Host, h: Word)
    requires c != [] && forall j: nat :: j < |c| ==> 0 <= c[j] < |s|
    requires prev == -1 || 0 <= prev < |s|
    requires Deref(host, s[c[0]].ptr) != h
    ensures var i := FindRec(host, Records(s, c), h); var j := FindRec(host, Records(s, c[1..]), h);
            UnlinkedAfter(s, c[0], c[1..], j) == UnlinkedAfter(s, prev, c, i)
  {
    assert Records(s, c)[1..] == Records(s, c[1..]);
    assert Records(s, c)[0] == SlotRec(s, c[0]);
  }

  lemma UnlinkedAfterHead(s: seq<GMem>, c: seq<int>, i: int)
    requires -1 <= i < |c|
    requires forall j: nat :: j < |c| ==> 0 <= c[j] < |s|
    ensures UnlinkedAfter(s, -1, c, i) == if i == -1 then s else Unlinked(s, c, i)
  {
  }

  /** `remove_gmem` as written: the slot is emptied, and a removed head stays the entry. */
  ghost function RemoveAsWritten(st: Store, host: Host, k: Key, h: Word): Store
    requires WF(st)
  {
    Store(st.t, Remove(st, host, k, h).s)
  }

  lemma EntryFilled(st: Store, r: int)
    requires WF(st) && InUse(st, r) && st.t[r].entry != -1
    ensures 0 <= st.t[r].entry < |st.s| && !st.s[st.t[r].entry].Empty()
  {
  }

  /** It agrees with the intended removal, and keeps the invariant, exactly when the handle is not the head. */
  lemma RemoveAsWrittenExact(st: Store, host: Host, k: Key, h: Word)
    requires WF(st)
    ensures RemoveAsWritten(st, host, k, h) == Remove(st, host, k, h) <==> PosOf(st, host, k, h) != 0
    ensures WF(RemoveAsWritten(st, host, k, h)) <==> PosOf(st, host, k, h) != 0
  {
    RemoveRefinesLedger(st, host, k, h);
    var st' := RemoveAsWritten(st, host, k, h);
    if PosOf(st, host, k, h) == 0 {
      KeyRow(st, k);
      var r := Find(st.t, k);
      var c := ChainAt(st, r);
      ChainInBounds(st.s, st.t[r].entry, c);
      assert LinkOK(st.s, c, 0);
      assert st'.s[c[0]].Empty();
      if |c| > 1 {
        assert LinkOK(st.s, c, 1);
      }
      assert st'.t[r].entry == c[0] && Remove(st, host, k, h).t[r].entry == At(c, 1);
      if WF(st') {
        EntryFilled(st', r);
      }
    }
  }
}
