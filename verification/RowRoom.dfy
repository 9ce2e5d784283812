/** When the process table has a row for a key. */
module RowRoom {
  import opened Words
  import opened Rows
  import opened ProbeTable
  import opened ProbeCoverage
  import opened Chains
  import opened Store

  function RowsInUse(t: seq<RNode>): set<int> {
    set p | 0 <= p < |t| && t[p].stat.Exist?
  }

  ghost function KeysOf(t: seq<RNode>, ps: set<int>): set<Key>
    requires ps <= RowsInUse(t)
  {
    set p | p in ps :: t[p].key
  }

  lemma {:induction false} KeysOfSize(t: seq<RNode>, ps: set<int>)
    requires UniqueKeys(t) && ps <= RowsInUse(t)
    ensures |KeysOf(t, ps)| == |ps|
    decreases |ps|
  {
    if ps == {} {
      assert KeysOf(t, ps) == {};
    } else {
      var p :| p in ps;
      KeysOfSize(t, ps - {p});
      forall q | q in ps - {p} ensures t[q].key != t[p].key {
        assert Holds(t, p, t[p].key);
        assert !Holds(t, q, t[p].key);
      }
      assert KeysOf(t, ps) == KeysOf(t, ps - {p}) + {t[p].key};
    }
  }

  /** As many keys as rows in use; as many as there are rows exactly when every row is in use. */
  lemma KeysCount(t: seq<RNode>)
    requires UniqueKeys(t)
    ensures |Keys(t)| == |RowsInUse(t)| <= |t|
    ensures |Keys(t)| == |t| <==> forall p :: 0 <= p < |t| ==> t[p].stat.Exist?
  {
    KeysOfSize(t, RowsInUse(t));
    assert KeysOf(t, RowsInUse(t)) == Keys(t);
    SubsetSize(RowsInUse(t), UpTo(|t|));
    if forall p :: 0 <= p < |t| ==> t[p].stat.Exist? {
      assert RowsInUse(t) == UpTo(|t|);
    }
    assert forall p :: 0 <= p < |t| ==> p in UpTo(|t|) && (p in RowsInUse(t) <==> t[p].stat.Exist?);
  }

  /** With covering probes there is a row for a key exactly when it has one or there are fewer keys than rows. */
  lemma RoomCounted(t: seq<RNode>, k: Key)
    requires TableOK(t) && 0 < |t| < U64 && WrapHarmless(k, |t|)
    ensures Room(t, k) <==> k in Keys(t) || |Keys(t)| < |t|
  {
    KeysCount(t);
    FindRefinesLookup(t, k, -1);
    InsertFailsExactly(t, k);
    if k !in Keys(t) {
      assert forall p :: 0 <= p < |t| && t[p].stat.Exist? ==> t[p].key in Keys(t);
    }
  }

  // Without tombstones.

  ghost predicate NoTombstone(t: seq<RNode>) {
    forall p :: 0 <= p < |t| ==> !t[p].stat.Deleted?
  }

  /** In a table without tombstones an insertion lands on the row that the search finds. */
  lemma {:induction false} SearchIsInsertion(t: seq<RNode>, k: Key, i: nat)
    requires NoTombstone(t) && FindFrom(t, k, i) != -1
    ensures InsertFrom(t, k, i) == FindFrom(t, k, i)
    decreases |t| - i
  {
    var p := Probe(k, |t|, i);
    if t[p].key != k {
      SearchIsInsertion(t, k, i + 1);
    }
  }
}
