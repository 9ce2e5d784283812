/** Byte totals: of a chain, of the whole table, and of the ledger. */
module Usage {
  import opened Words
  import opened Slots
  import opened Rows
  import opened ProbeTable
  import opened Chains
  import opened Store
  import opened Refinement

  function SumRecs(recs: seq<Rec>): nat {
    if recs == [] then 0 else recs[0].bytes + SumRecs(recs[1..])
  }

  lemma {:induction false} SumAppend(x: seq<Rec>, y: seq<Rec>)
    ensures SumRecs(x + y) == SumRecs(x) + SumRecs(y)
  {
    if x == [] {
      assert x + y == y;
    } else {
      SumAppend(x[1..], y);
      assert (x + y)[1..] == x[1..] + y;
    }
  }

  lemma SumSplit(recs: seq<Rec>, i: nat)
    requires i < |recs|
    ensures SumRecs(recs) == SumRecs(recs[..i]) + recs[i].bytes + SumRecs(recs[i + 1..])
  {
    assert recs == recs[..i] + recs[i..];
    SumAppend(recs[..i], recs[i..]);
  }

  lemma SumPrefix(recs: seq<Rec>, i: nat)
    requires i < |recs|
    ensures SumRecs(recs[..i + 1]) == SumRecs(recs[..i]) + recs[i].bytes
  {
    assert recs[..i + 1] == recs[..i] + [recs[i]];
    SumAppend(recs[..i], [recs[i]]);
  }

  lemma SumWithout(recs: seq<Rec>, i: nat)
    requires i < |recs|
    ensures SumRecs(Without(recs, i)) == SumRecs(recs) - recs[i].bytes
  {
    SumSplit(recs, i);
    SumAppend(recs[..i], recs[i + 1..]);
  }

  lemma SumReplace(recs: seq<Rec>, i: nat, rec: Rec)
    requires i < |recs|
    ensures SumRecs(recs[i := rec]) == SumRecs(recs) - recs[i].bytes + rec.bytes
  {
    SumSplit(recs, i);
    SumSplit(recs[i := rec], i);
    assert recs[i := rec][..i] == recs[..i];
    assert recs[i := rec][i + 1..] == recs[i + 1..];
  }

  /** Bytes recorded for process `k`. */
  function Recorded(st: Store, k: Key): nat {
    SumRecs(Recs(st, k))
  }

  /** Adding never raises a process's total by more than the request, and removing never raises it. */
  lemma AddedBytes(recs: seq<Rec>, host: Host, a: Word, b: Word, free: bool)
    ensures SumRecs(AddedRecs(recs, host, a, b, free)) <= SumRecs(recs) + b
    ensures FindRec(host, recs, Deref(host, a)) == -1 && free ==>
              SumRecs(AddedRecs(recs, host, a, b, free)) == SumRecs(recs) + b
  {
    var i := FindRec(host, recs, Deref(host, a));
    if i != -1 {
      SumReplace(recs, i, Rec(a, b));
    } else {
      SumAppend(recs, [Rec(a, b)]);
    }
  }

  lemma RemovedBytes(recs: seq<Rec>, host: Host, h: Word)
    ensures SumRecs(RemovedRecs(recs, host, h)) <= SumRecs(recs)
  {
    var i := FindRec(host, recs, h);
    if i != -1 {
      SumWithout(recs, i);
    }
  }

  // Sums over finite maps.

  ghost function SumMap<K>(m: map<K, nat>): nat
    decreases |m.Keys|
  {
    if m.Keys == {} then 0
    else
      var k :| k in m.Keys;
      m[k] + SumMap(m - {k})
  }

  lemma {:induction false} SumMapAt<K>(m: map<K, nat>, k: K)
    requires k in m
    ensures SumMap(m) == m[k] + SumMap(m - {k})
    decreases |m.Keys|
  {
    var j :| j in m.Keys && SumMap(m) == m[j] + SumMap(m - {j});
    if j != k {
      SumMapAt(m - {j}, k);
      SumMapAt(m - {k}, j);
      assert m - {j} - {k} == m - {k} - {j};
    }
  }

  lemma SumMapSet<K>(m: map<K, nat>, k: K, v: nat)
    requires k in m
    ensures SumMap(m[k := v]) == SumMap(m) - m[k] + v
  {
    SumMapAt(m, k);
    SumMapAt(m[k := v], k);
    assert m[k := v] - {k} == m - {k};
  }

  /** Maps that agree except at one key differ in their sums as they differ there. */
  lemma SumMapStep<K>(m: map<K, nat>, m': map<K, nat>, k: K)
    requires m'.Keys == m.Keys
    requires forall j :: j in m && j != k ==> m'[j] == m[j]
    ensures k in m ==> SumMap(m') == SumMap(m) - m[k] + m'[k]
    ensures k !in m ==> SumMap(m') == SumMap(m)
  {
    if k in m {
      assert m' == m[k := m'[k]];
      SumMapSet(m, k, m'[k]);
    } else {
      assert m' == m;
    }
  }

  lemma {:induction false} SumMapLe<K>(m: map<K, nat>, n: map<K, nat>)
    requires m.Keys == n.Keys
    requires forall k :: k in m ==> m[k] <= n[k]
    ensures SumMap(m) <= SumMap(n)
    decreases |m.Keys|
  {
    if m.Keys != {} {
      var k :| k in m.Keys;
      SumMapAt(m, k);
      SumMapAt(n, k);
      SumMapLe(m - {k}, n - {k});
    }
  }

  /** Raised strictly at one key, the sum is raised strictly. */
  lemma SumMapLt<K>(m: map<K, nat>, n: map<K, nat>, k: K)
    requires m.Keys == n.Keys && k in m && m[k] < n[k]
    requires forall j :: j in m ==> m[j] <= n[j]
    ensures SumMap(m) < SumMap(n)
  {
    SumMapAt(m, k);
    SumMapAt(n, k);
    SumMapLe(m - {k}, n - {k});
  }

  /** One key added, dropped or lowered, the others kept: the sum is not raised. */
  lemma SumMapNotRaised<K>(m: map<K, nat>, m': map<K, nat>, k: K)
    requires m'.Keys - {k} == m.Keys - {k}
    requires forall j :: j in m && j != k ==> j in m' && m'[j] == m[j]
    requires k in m' ==> m'[k] <= if k in m then m[k] else 0
    ensures SumMap(m') <= SumMap(m)
  {
    if k in m {
      SumMapAt(m, k);
    }
    if k in m' {
      SumMapAt(m', k);
    }
    assert m' - {k} == m - {k};
    MinusNothing(m, k);
    MinusNothing(m', k);
  }

  lemma MinusNothing<K>(m: map<K, nat>, k: K)
    ensures k !in m ==> m - {k} == m
  {
  }

  lemma {:induction false} SumMapZero<K>(m: map<K, nat>)
    requires forall k :: k in m ==> m[k] == 0
    ensures SumMap(m) == 0
    decreases |m.Keys|
  {
    if m.Keys != {} {
      var k :| k in m.Keys;
      SumMapAt(m, k);
      SumMapZero(m - {k});
    }
  }

  // The link walk of one chain, which does not look whether a slot is empty.

  function LinkBytes(s: seq<GMem>, g: int, fuel: nat): nat
    decreases fuel
  {
    if fuel == 0 || !(0 <= g < |s|) then 0
    else s[g].bytes + LinkBytes(s, s[g].next, fuel - 1)
  }

  /** What the link walk adds up for process `k`. */
  function LinkReading(st: Store, k: Key): nat {
    var p := Find(st.t, k);
    if p == -1 then 0 else LinkBytes(st.s, st.t[p].entry, |st.s|)
  }

  lemma {:induction false} LinkBytesOfChain(s: seq<GMem>, g: int, c: seq<int>, fuel: nat)
    requires IsChain(s, g, c) && |c| <= fuel
    ensures LinkBytes(s, g, fuel) == SumRecs(Records(s, c))
    decreases fuel
  {
    if c != [] {
      assert LinkOK(s, c, 0);
      ChainTail(s, g, c);
      LinkBytesOfChain(s, s[g].next, c[1..], fuel - 1);
      assert Records(s, c)[1..] == Records(s, c[1..]);
    }
  }

  /** On a well-formed store the link walk adds up exactly the process's records. */
  lemma LinkReadingExact(st: Store, k: Key)
    requires WF(st)
    ensures LinkReading(st, k) == Recorded(st, k)
  {
    var p := Find(st.t, k);
    if p != -1 {
      KeyRow(st, k);
      ChainBound(st.s, st.t[p].entry, ChainAt(st, p));
      LinkBytesOfChain(st.s, st.t[p].entry, ChainAt(st, p), |st.s|);
    }
  }

  // The table walk.

  /** Bytes on the chains of the first `n` rows whose process is alive. */
  function UsedUpTo(st: Store, live: set<Key>, n: nat): nat
    requires n <= |st.t|
    decreases n
  {
    if n == 0 then 0
    else UsedUpTo(st, live, n - 1)
         + if st.t[n - 1].stat.Exist? && st.t[n - 1].key in live
           then SumRecs(Records(st.s, ChainAt(st, n - 1))) else 0
  }

  function Used(st: Store, live: set<Key>): nat {
    UsedUpTo(st, live, |st.t|)
  }

  /** The share of process `k` in the first `n` rows. */
  function Share(st: Store, k: Key, n: nat): nat {
    if Find(st.t, k) < n then Recorded(st, k) else 0
  }

  ghost function Shares(st: Store, live: set<Key>, n: nat): map<Key, nat> {
    map k | k in live :: Share(st, k, n)
  }

  lemma ShareStep(st: Store, k: Key, p: nat)
    requires WF(st) && p < |st.t|
    ensures Share(st, k, p + 1) ==
            if st.t[p].stat.Exist? && st.t[p].key == k then SumRecs(Records(st.s, ChainAt(st, p)))
            else Share(st, k, p)
    ensures st.t[p].stat.Exist? && st.t[p].key == k ==> Share(st, k, p) == 0
    ensures Share(st, k, 0) == 0
  {
    FindRefinesLookup(st.t, k, p);
  }

  ghost function ShareTotal(st: Store, live: set<Key>, n: nat): nat {
    SumMap(Shares(st, live, n))
  }

  lemma NoShares(st: Store, live: set<Key>)
    ensures ShareTotal(st, live, 0) == 0
  {
    forall k | k in live ensures Share(st, k, 0) == 0 {
      assert Recs(st, k) == [] || Find(st.t, k) >= 0;
    }
    SumMapZero(Shares(st, live, 0));
  }

  lemma {:induction false} UsedIsShares(st: Store, live: set<Key>, n: nat)
    requires WF(st) && n <= |st.t|
    ensures UsedUpTo(st, live, n) == ShareTotal(st, live, n)
    decreases n
  {
    if n == 0 {
      NoShares(st, live);
    } else {
      UsedIsShares(st, live, n - 1);
      SharesStep(st, live, n - 1, n);
    }
  }

  lemma SharesStep(st: Store, live: set<Key>, p: nat, n: nat)
    requires WF(st) && p < |st.t| && n == p + 1
    ensures ShareTotal(st, live, n) - ShareTotal(st, live, p) == UsedUpTo(st, live, n) - UsedUpTo(st, live, p)
  {
    var k := st.t[p].key;
    var m, m' := Shares(st, live, p), Shares(st, live, n);
    forall j | j in live && j != k ensures m'[j] == m[j] {
      ShareStep(st, j, p);
    }
    ShareStep(st, k, p);
    SumMapStep(m, m', k);
  }

  /** `gmem_used` adds up the ledger: the walk over rows and chains totals the live processes' records. */
  lemma UsedIsLedgerTotal(st: Store, live: set<Key>)
    requires WF(st)
    ensures Used(st, live) == SumMap(map k | k in live :: Recorded(st, k))
  {
    UsedIsShares(st, live, |st.t|);
    assert Shares(st, live, |st.t|) == map k | k in live :: Recorded(st, k);
  }

  /** Two stores with the same records report the same usage. */
  lemma UsedOfRecs(st: Store, st': Store, live: set<Key>)
    requires WF(st) && WF(st')
    requires forall k :: k in live ==> Recs(st', k) == Recs(st, k)
    ensures Used(st', live) == Used(st, live)
  {
    UsedIsLedgerTotal(st, live);
    UsedIsLedgerTotal(st', live);
    assert (map k | k in live :: Recorded(st', k)) == (map k | k in live :: Recorded(st, k));
  }

  /** The usage reading is one of the things an add and its removal restore. */
  lemma RoundTripUsage(st: Store, host: Host, k: Key, a: Word, b: Word, live: set<Key>)
    requires WF(st) && Room(st.t, k) && a != 0
    requires PosOf(st, host, k, Deref(host, a)) == -1 && FirstEmpty(st.s) != -1
    ensures WF(Add(st, host, k, a, b))
    ensures Used(Add(st, host, k, a, b), live) == Used(st, live) + if k in live then b else 0
    ensures Used(Remove(Add(st, host, k, a, b), host, k, Deref(host, a)), live) == Used(st, live)
  {
    var mid := Add(st, host, k, a, b);
    AddThenRemove(st, host, k, a, b);
    UsedOfRecs(st, Remove(mid, host, k, Deref(host, a)), live);
    FreshAdded(st, host, k, a, b);
    SumAppend(Recs(st, k), [Rec(a, b)]);
    UsedOneChange(st, mid, live, k) by {
      forall j | j != k ensures Recs(mid, j) == Recs(st, j) {
        AddIsolated(st, host, k, a, b, j);
      }
    }
  }

  lemma UsedOneChange(st: Store, st': Store, live: set<Key>, k: Key)
    requires WF(st) && WF(st')
    requires forall j :: j != k ==> Recs(st', j) == Recs(st, j)
    ensures k in live ==> Used(st', live) == Used(st, live) - Recorded(st, k) + Recorded(st', k)
    ensures k !in live ==> Used(st', live) == Used(st, live)
  {
    UsedIsLedgerTotal(st, live);
    UsedIsLedgerTotal(st', live);
    SumMapStep(map j | j in live :: Recorded(st, j), map j | j in live :: Recorded(st', j), k);
  }

  /** A failed push leaves every usage reading as it was. */
  lemma FullSlabUsage(st: Store, host: Host, k: Key, a: Word, b: Word, live: set<Key>)
    requires WF(st) && Room(st.t, k) && a != 0
    requires PosOf(st, host, k, Deref(host, a)) == -1
    requires forall x :: 0 <= x < |st.s| ==> !st.s[x].Empty()
    ensures WF(Add(st, host, k, a, b)) && Used(Add(st, host, k, a, b), live) == Used(st, live)
  {
    forall k2 ensures Recs(Add(st, host, k, a, b), k2) == Recs(st, k2) {
      AddToFullSlab(st, host, k, a, b, k2);
    }
    AddToFullSlab(st, host, k, a, b, k);
    UsedOfRecs(st, Add(st, host, k, a, b), live);
  }
}
