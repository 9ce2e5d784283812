/** What a process's records say once its memory is read: each live handle and its bytes. */
module Handles {
  import opened Words
  import opened Rows
  import opened Chains
  import opened Store
  import opened Refinement
  import opened Usage

  ghost predicate UniqueHandles(host: Host, recs: seq<Rec>) {
    forall i, j :: 0 <= i < j < |recs| ==> Deref(host, recs[i].ptr) != Deref(host, recs[j].ptr)
  }

  /** No record's variable is at address `a`. */
  predicate Unused(recs: seq<Rec>, a: Word) {
    forall i :: 0 <= i < |recs| ==> recs[i].ptr != a
  }

  function HandleMap(host: Host, recs: seq<Rec>): map<Word, nat> {
    if recs == [] then map[]
    else
      var last := recs[|recs| - 1];
      HandleMap(host, recs[..|recs| - 1])[Deref(host, last.ptr) := last.bytes]
  }

  lemma HandleMapAppend(host: Host, recs: seq<Rec>, rec: Rec)
    ensures HandleMap(host, recs + [rec]) == HandleMap(host, recs)[Deref(host, rec.ptr) := rec.bytes]
  {
  }

  /** A handle is in the view exactly when the search along the chain finds it. */
  lemma {:induction false} FoundIsMapped(host: Host, recs: seq<Rec>, h: Word)
    ensures h in HandleMap(host, recs) <==> FindRec(host, recs, h) != -1
  {
    if recs != [] {
      var n := |recs| - 1;
      FoundIsMapped(host, recs[..n], h);
      assert forall j :: 0 <= j < n ==> recs[..n][j] == recs[j];
      if FindRec(host, recs[..n], h) != -1 {
        assert recs[FindRec(host, recs[..n], h)] == recs[..n][FindRec(host, recs[..n], h)];
      }
    }
  }

  /** Removing the first match of a chain without repeated handles removes that one entry of the view. */
  lemma {:induction false} HandleMapRemove(host: Host, recs: seq<Rec>, h: Word)
    requires UniqueHandles(host, recs)
    ensures HandleMap(host, RemovedRecs(recs, host, h)) == HandleMap(host, recs) - {h}
    ensures UniqueHandles(host, RemovedRecs(recs, host, h))
  {
    var i := FindRec(host, recs, h);
    FoundIsMapped(host, recs, h);
    if i != -1 {
      HandleMapWithout(host, recs, i);
    }
  }

  lemma UniqueWithout(host: Host, recs: seq<Rec>, i: nat)
    requires UniqueHandles(host, recs) && i < |recs|
    ensures UniqueHandles(host, Without(recs, i))
    ensures UniqueHandles(host, recs[..|recs| - 1])
  {
  }

  lemma LastHandleNew(host: Host, recs: seq<Rec>)
    requires UniqueHandles(host, recs) && recs != []
    ensures Deref(host, recs[|recs| - 1].ptr) !in HandleMap(host, recs[..|recs| - 1])
  {
    FoundIsMapped(host, recs[..|recs| - 1], Deref(host, recs[|recs| - 1].ptr));
  }

  lemma WithoutFront<T>(c: seq<T>, i: nat)
    requires i < |c|
    ensures i == |c| - 1 ==> Without(c, i) == c[..|c| - 1]
    ensures i < |c| - 1 ==> Without(c, i) == Without(c[..|c| - 1], i) + [c[|c| - 1]]
  {
  }

  lemma {:induction false} HandleMapWithout(host: Host, recs: seq<Rec>, i: nat)
    requires UniqueHandles(host, recs) && i < |recs|
    ensures HandleMap(host, Without(recs, i)) == HandleMap(host, recs) - {Deref(host, recs[i].ptr)}
    ensures UniqueHandles(host, Without(recs, i))
    decreases |recs|
  {
    var n := |recs| - 1;
    var front := recs[..n];
    var h := Deref(host, recs[i].ptr);
    UniqueWithout(host, recs, i);
    LastHandleNew(host, recs);
    WithoutFront(recs, i);
    MapMinus(HandleMap(host, front), h, Deref(host, recs[n].ptr), recs[n].bytes);
    if i < n {
      HandleMapWithout(host, front, i);
      HandleMapAppend(host, Without(front, i), recs[n]);
      assert front[i] == recs[i];
    }
  }

  lemma MapMinus<K, V>(m: map<K, V>, h: K, g: K, v: V)
    ensures h != g ==> (m - {h})[g := v] == m[g := v] - {h}
    ensures h !in m ==> m[h := v] - {h} == m
  {
  }

  /** Writing a variable no record names leaves the view alone. */
  lemma {:induction false} HandleMapFrame(host: Host, recs: seq<Rec>, a: Word, v: Word)
    requires Unused(recs, a)
    ensures HandleMap(host[a := v], recs) == HandleMap(host, recs)
    ensures UniqueHandles(host, recs) ==> UniqueHandles(host[a := v], recs)
  {
    if recs != [] {
      HandleMapFrame(host, recs[..|recs| - 1], a, v);
    }
  }

  /** The records' bytes are the view's bytes. */
  lemma {:induction false} HandleMapTotal(host: Host, recs: seq<Rec>)
    requires UniqueHandles(host, recs)
    ensures SumMap(HandleMap(host, recs)) == SumRecs(recs)
  {
    if recs != [] {
      var n := |recs| - 1;
      var h := Deref(host, recs[n].ptr);
      HandleMapTotal(host, recs[..n]);
      FoundIsMapped(host, recs[..n], h);
      SumMapAt(HandleMap(host, recs), h);
      assert HandleMap(host, recs) - {h} == HandleMap(host, recs[..n]);
      assert recs == recs[..n] + [recs[n]];
      SumAppend(recs[..n], [recs[n]]);
    }
  }

  /** Registering a fresh handle adds one entry to its process's map of handles to bytes. */
  lemma AddRefinesHandles(st: Store, host: Host, k: Key, a: Word, b: Word)
    requires WF(st) && Room(st.t, k) && a != 0 && FirstEmpty(st.s) != -1
    requires UniqueHandles(host, Recs(st, k)) && PosOf(st, host, k, Deref(host, a)) == -1
    ensures var recs' := Recs(Add(st, host, k, a, b), k);
            && UniqueHandles(host, recs')
            && Deref(host, a) !in HandleMap(host, Recs(st, k))
            && HandleMap(host, recs') == HandleMap(host, Recs(st, k))[Deref(host, a) := b as nat]
  {
    FreshAdded(st, host, k, a, b);
    FoundIsMapped(host, Recs(st, k), Deref(host, a));
    HandleMapAppend(host, Recs(st, k), Rec(a, b));
  }

  /** Unregistering a handle deletes that entry and no other. */
  lemma RemoveRefinesHandles(st: Store, host: Host, k: Key, h: Word)
    requires WF(st) && UniqueHandles(host, Recs(st, k))
    ensures var recs' := Recs(Remove(st, host, k, h), k);
            UniqueHandles(host, recs') && HandleMap(host, recs') == HandleMap(host, Recs(st, k)) - {h}
  {
    RemoveRefinesLedger(st, host, k, h);
    HandleMapRemove(host, Recs(st, k), h);
  }

  // Stopping at the first match.

  function AllRemoved(recs: seq<Rec>, host: Host, h: Word): seq<Rec> {
    if recs == [] then []
    else if Deref(host, recs[0].ptr) == h then AllRemoved(recs[1..], host, h)
    else [recs[0]] + AllRemoved(recs[1..], host, h)
  }

  ghost predicate AtMostOnce(recs: seq<Rec>, host: Host, h: Word) {
    forall i, j :: 0 <= i < j < |recs| && Deref(host, recs[i].ptr) == h ==> Deref(host, recs[j].ptr) != h
  }

  lemma {:induction false} NoneRemoved(recs: seq<Rec>, host: Host, h: Word)
    ensures |AllRemoved(recs, host, h)| <= |recs|
    ensures AllRemoved(recs, host, h) == recs <==> FindRec(host, recs, h) == -1
    ensures |AllRemoved(recs, host, h)| == |recs| ==> FindRec(host, recs, h) == -1
  {
    if recs != [] {
      NoneRemoved(recs[1..], host, h);
      if Deref(host, recs[0].ptr) != h {
        assert recs == [recs[0]] + recs[1..];
      }
    }
  }

  lemma HeadKept(recs: seq<Rec>, host: Host, h: Word)
    requires recs != [] && Deref(host, recs[0].ptr) != h
    ensures RemovedRecs(recs, host, h) == [recs[0]] + RemovedRecs(recs[1..], host, h)
  {
  }

  lemma TailOnce(recs: seq<Rec>, host: Host, h: Word)
    requires recs != [] && Deref(host, recs[0].ptr) != h
    ensures AtMostOnce(recs, host, h) <==> AtMostOnce(recs[1..], host, h)
  {
  }

  lemma HeadOnce(recs: seq<Rec>, host: Host, h: Word)
    requires recs != [] && Deref(host, recs[0].ptr) == h
    ensures RemovedRecs(recs, host, h) == recs[1..]
    ensures AtMostOnce(recs, host, h) <==> FindRec(host, recs[1..], h) == -1
  {
  }

  lemma ConsSame<T>(x: T, a: seq<T>, b: seq<T>)
    ensures [x] + a == [x] + b <==> a == b
  {
    assert ([x] + a)[1..] == a && ([x] + b)[1..] == b;
  }

  /** Stopping at the first match removes every match exactly when there is at most one. */
  lemma {:induction false} FirstMatchExact(recs: seq<Rec>, host: Host, h: Word)
    ensures RemovedRecs(recs, host, h) == AllRemoved(recs, host, h) <==> AtMostOnce(recs, host, h)
  {
    if recs != [] {
      NoneRemoved(recs[1..], host, h);
      if Deref(host, recs[0].ptr) == h {
        HeadOnce(recs, host, h);
      } else {
        FirstMatchExact(recs[1..], host, h);
        HeadKept(recs, host, h);
        ConsSame(recs[0], RemovedRecs(recs[1..], host, h), AllRemoved(recs[1..], host, h));
        TailOnce(recs, host, h);
      }
    }
  }
}
