/** The process table: open addressing with linear probing and tombstones. */
module ProbeTable {
  import opened Words
  import opened Rows

  /** The pid is sign-extended to 64 bits, shifted left by six, and the start time added, all modulo 2^64. */
  function PreHash(k: Key): Word {
    ((k.pid % U64) * 64 % U64 + k.t) % U64
  }

  function Probe(k: Key, n: nat, i: nat): (p: nat)
    requires n > 0
    ensures p < n
  {
    (PreHash(k) + i) % U64 % n
  }

  ghost predicate Holds(t: seq<RNode>, p: int, k: Key) {
    0 <= p < |t| && t[p].stat.Exist? && t[p].key == k
  }

  ghost function Keys(t: seq<RNode>): set<Key> {
    set p | 0 <= p < |t| && t[p].stat.Exist? :: t[p].key
  }

  lemma RowOf(t: seq<RNode>, k: Key) returns (p: int)
    requires k in Keys(t)
    ensures Holds(t, p, k)
  {
    p :| 0 <= p < |t| && t[p].stat.Exist? && t[p].key == k;
  }

  lemma HeldIsKey(t: seq<RNode>, p: int, k: Key)
    requires Holds(t, p, k)
    ensures k in Keys(t)
  {
  }

  /** No probe of `k` before the i-th ends a search. */
  ghost predicate NoGap(t: seq<RNode>, k: Key, i: nat)
    requires |t| > 0
  {
    forall j: nat :: j < i ==> !t[Probe(k, |t|, j)].stat.NonExist?
  }

  ghost predicate OnPathAt(t: seq<RNode>, k: Key, p: int, i: nat)
    requires |t| > 0
  {
    i < |t| && Probe(k, |t|, i) == p && NoGap(t, k, i)
  }

  ghost predicate UniqueKeys(t: seq<RNode>) {
    forall p, q, k :: Holds(t, p, k) && Holds(t, q, k) ==> p == q
  }

  /** The table invariant: one row a key, and every row within reach of its own key's probes. */
  ghost predicate TableOK(t: seq<RNode>) {
    && UniqueKeys(t)
    && forall p, k :: Holds(t, p, k) ==> exists i: nat :: OnPathAt(t, k, p, i)
  }

  /** Where the search for `k` that has made `i` probes ends, -1 for the null pointer. */
  function FindFrom(t: seq<RNode>, k: Key, i: nat): (p: int)
    ensures p == -1 || Holds(t, p, k)
    decreases |t| - i
  {
    if i >= |t| then -1
    else
      var p := Probe(k, |t|, i);
      if t[p].stat.NonExist? then -1
      else if t[p].stat.Exist? && t[p].SameKey(k) then p
      else FindFrom(t, k, i + 1)
  }

  /** Where an insertion of `k` that has made `i` probes lands, -1 for the null pointer. */
  function InsertFrom(t: seq<RNode>, k: Key, i: nat): (p: int)
    ensures p == -1 || (0 <= p < |t| && (t[p].stat.Exist? ==> t[p].key == k))
    decreases |t| - i
  {
    if i >= |t| then -1
    else
      var p := Probe(k, |t|, i);
      if !t[p].stat.Exist? then p
      else if t[p].SameKey(k) then p
      else InsertFrom(t, k, i + 1)
  }

  function Find(t: seq<RNode>, k: Key): int { FindFrom(t, k, 0) }

  function InsertPos(t: seq<RNode>, k: Key): int { InsertFrom(t, k, 0) }

  lemma {:induction false} FindReaches(t: seq<RNode>, k: Key, i: nat, m: nat, p: int)
    requires UniqueKeys(t) && Holds(t, p, k)
    requires OnPathAt(t, k, p, m) && i <= m
    ensures FindFrom(t, k, i) == p
    decreases m - i
  {
    if i < m {
      FindReaches(t, k, i + 1, m, p);
    }
  }

  /** The search refines lookup in a partial map, whatever tombstones lie on the path. */
  lemma FindRefinesLookup(t: seq<RNode>, k: Key, p: int)
    requires TableOK(t)
    ensures Holds(t, p, k) <==> p != -1 && Find(t, k) == p
    ensures Find(t, k) == -1 <==> k !in Keys(t)
  {
    forall q | Holds(t, q, k) ensures Find(t, k) == q {
      var m: nat :| OnPathAt(t, k, q, m);
      FindReaches(t, k, 0, m, q);
    }
    if k in Keys(t) {
      var q := RowOf(t, k);
    }
  }

  /** An insertion lands on the first probe that is free or already its own; all earlier probes are other keys' rows. */
  lemma {:induction false} InsertLands(t: seq<RNode>, k: Key, i: nat)
    requires |t| > 0
    ensures InsertFrom(t, k, i) == -1 ==>
              forall j: nat :: i <= j < |t| ==> t[Probe(k, |t|, j)].stat.Exist? && t[Probe(k, |t|, j)].key != k
    ensures InsertFrom(t, k, i) != -1 ==>
              exists m: nat :: i <= m < |t| && Probe(k, |t|, m) == InsertFrom(t, k, i)
                               && forall j: nat :: i <= j < m ==> t[Probe(k, |t|, j)].stat.Exist?
                                                                  && t[Probe(k, |t|, j)].key != k
    decreases |t| - i
  {
    if i < |t| {
      var p := Probe(k, |t|, i);
      if t[p].stat.Exist? && t[p].key != k {
        InsertLands(t, k, i + 1);
      }
    }
  }

  /** Writing a row that is not `NonExist` never cuts another key's probe path. */
  lemma PathKept(t: seq<RNode>, p: int, val: RNode, k: Key, q: int, i: nat)
    requires 0 <= p < |t| && !val.stat.NonExist?
    requires OnPathAt(t, k, q, i)
    ensures OnPathAt(t[p := val], k, q, i)
  {
  }

  /** The partial map the table stands for. */
  ghost function TableMap(t: seq<RNode>): map<Key, int>
  {
    map k | k in Keys(t) :: Find(t, k)
  }

  /** Inserting an absent key keeps the invariant and adds just that binding. */
  lemma InsertRefinesUpdate(t: seq<RNode>, k: Key, val: RNode)
    requires TableOK(t)
    requires k !in Keys(t)
    requires InsertPos(t, k) != -1
    requires val.key == k && val.stat.Exist?
    ensures var t' := t[InsertPos(t, k) := val];
            TableOK(t') && TableMap(t') == TableMap(t)[k := InsertPos(t, k)]
  {
    var p := InsertPos(t, k);
    var t' := t[p := val];
    FindRefinesLookup(t, k, p);
    InsertLands(t, k, 0);
    var m: nat :| m < |t| && Probe(k, |t|, m) == p
                  && forall j: nat :: 0 <= j < m ==> t[Probe(k, |t|, j)].stat.Exist? && t[Probe(k, |t|, j)].key != k;
    assert OnPathAt(t', k, p, m);
    WrittenOK(t, p, val, m);
    WrittenMap(t, p, val);
  }

  /** A free row overwritten with a new key's row, or a row rewritten under the key it already has. */
  ghost predicate Writable(t: seq<RNode>, p: int, val: RNode) {
    && 0 <= p < |t| && val.stat.Exist?
    && (val.key in Keys(t) ==> Holds(t, p, val.key))
    && (t[p].stat.Exist? ==> t[p].key == val.key)
  }

  lemma WrittenHolds(t: seq<RNode>, p: int, val: RNode, x: int, k: Key)
    requires UniqueKeys(t) && Writable(t, p, val)
    ensures Holds(t[p := val], x, k) <==> if x == p then k == val.key else Holds(t, x, k) && k != val.key
  {
    if Holds(t, x, val.key) {
      HeldIsKey(t, x, val.key);
    }
  }

  lemma WrittenOK(t: seq<RNode>, p: int, val: RNode, m: nat)
    requires TableOK(t) && Writable(t, p, val)
    requires OnPathAt(t[p := val], val.key, p, m)
    ensures TableOK(t[p := val])
  {
    var t' := t[p := val];
    forall x, k | Holds(t', x, k) ensures exists i: nat :: OnPathAt(t', k, x, i) {
      WrittenHolds(t, p, val, x, k);
      if x != p {
        var i: nat :| OnPathAt(t, k, x, i);
        PathKept(t, p, val, k, x, i);
      }
    }
    forall x, y, k | Holds(t', x, k) && Holds(t', y, k) ensures x == y {
      WrittenHolds(t, p, val, x, k);
      WrittenHolds(t, p, val, y, k);
    }
  }

  lemma WrittenMap(t: seq<RNode>, p: int, val: RNode)
    requires TableOK(t) && Writable(t, p, val) && TableOK(t[p := val])
    ensures Keys(t[p := val]) == Keys(t) + {val.key}
    ensures TableMap(t[p := val]) == TableMap(t)[val.key := p]
  {
    var t' := t[p := val];
    forall k ensures k in Keys(t') <==> k in Keys(t) || k == val.key {
      if k in Keys(t) {
        var x := RowOf(t, k);
        WrittenHolds(t, p, val, x, k);
      }
      WrittenHolds(t, p, val, p, val.key);
      if k in Keys(t') {
        var x := RowOf(t', k);
        WrittenHolds(t, p, val, x, k);
      }
    }
    forall k | k in Keys(t') ensures Find(t', k) == TableMap(t)[val.key := p][k] {
      var x := RowOf(t', k);
      WrittenHolds(t, p, val, x, k);
      FindRefinesLookup(t', k, x);
      FindRefinesLookup(t, k, x);
    }
  }

  /** Deleting a key leaves a tombstone, keeps the invariant and removes just that binding. */
  lemma DeleteRefinesRemoval(t: seq<RNode>, k: Key)
    requires TableOK(t)
    requires Find(t, k) != -1
    ensures var t' := t[Find(t, k) := t[Find(t, k)].ShallowDelete()];
            TableOK(t') && TableMap(t') == TableMap(t) - {k}
  {
    var p := Find(t, k);
    var val := t[p].ShallowDelete();
    var t' := t[p := val];
    forall x, k' | Holds(t', x, k') ensures exists i: nat :: OnPathAt(t', k', x, i) {
      assert Holds(t, x, k');
      var i: nat :| OnPathAt(t, k', x, i);
      PathKept(t, p, val, k', x, i);
    }
    forall x, y, k' | Holds(t', x, k') && Holds(t', y, k') ensures x == y {
      assert Holds(t, x, k') && Holds(t, y, k');
    }
    forall k' ensures k' in Keys(t') <==> k' in Keys(t) && k' != k {
      if k' in Keys(t) {
        var x := RowOf(t, k');
        assert k' != k ==> Holds(t', x, k');
      }
      if k' in Keys(t') {
        var x := RowOf(t', k');
        assert Holds(t, x, k');
      }
    }
    forall k' | k' in Keys(t') ensures TableMap(t')[k'] == TableMap(t)[k'] {
      var x := RowOf(t', k');
      FindRefinesLookup(t', k', x);
      FindRefinesLookup(t, k', x);
    }
  }

  /** The entry index plays no part in the table invariant. */
  lemma EntryWritten(t: seq<RNode>, p: int, idx: int)
    requires TableOK(t)
    requires 0 <= p < |t| && t[p].stat.Exist?
    ensures TableOK(t[p := t[p].SetRecEntry(idx)])
    ensures Keys(t[p := t[p].SetRecEntry(idx)]) == Keys(t)
    ensures TableMap(t[p := t[p].SetRecEntry(idx)]) == TableMap(t)
  {
    var val := t[p].SetRecEntry(idx);
    assert Holds(t, p, t[p].key);
    var m: nat :| OnPathAt(t, t[p].key, p, m);
    PathKept(t, p, val, t[p].key, p, m);
    FindRefinesLookup(t, t[p].key, p);
    WrittenOK(t, p, val, m);
    WrittenMap(t, p, val);
  }

  /**
   * Insertion without a search first: it keeps the table invariant exactly when the key is absent or
   * the insertion lands on the row the search finds. It fails when a tombstone precedes that row.
   */
  lemma BlindInsertExact(t: seq<RNode>, k: Key, val: RNode)
    requires TableOK(t)
    requires InsertPos(t, k) != -1
    requires val.key == k && val.stat.Exist?
    ensures TableOK(t[InsertPos(t, k) := val]) <==> Find(t, k) == -1 || !t[InsertPos(t, k)].stat.Deleted?
  {
    var p := InsertPos(t, k);
    var q := Find(t, k);
    var t' := t[p := val];
    FindRefinesLookup(t, k, p);
    if q == -1 {
      InsertRefinesUpdate(t, k, val);
    } else {
      InsertLands(t, k, 0);
      var m: nat :| m < |t| && Probe(k, |t|, m) == p
                    && forall j: nat :: 0 <= j < m ==> t[Probe(k, |t|, j)].stat.Exist? && t[Probe(k, |t|, j)].key != k;
      var i: nat :| OnPathAt(t, k, q, i);
      assert m <= i;
      if t[p].stat.Exist? {
        WrittenOK(t, p, val, m);
      } else {
        assert Holds(t', p, k) && Holds(t', q, k);
        assert m != i;
        assert !t[Probe(k, |t|, m)].stat.NonExist?;
      }
    }
  }

  /** It does fail: a tombstone on the path of a key that has a row gives that key a second one. */
  lemma BlindInsertDuplicates()
    ensures var k := Key(0, 2);
            var t := [RNode(Key(0, 0), -1, Deleted), RNode(k, -1, Exist)];
            TableOK(t) && InsertPos(t, k) == 0 && !TableOK(t[0 := RNode(k, -1, Exist)])
  {
    var k := Key(0, 2);
    var t := [RNode(Key(0, 0), -1, Deleted), RNode(k, -1, Exist)];
    assert Probe(k, 2, 0) == 0 && Probe(k, 2, 1) == 1;
    assert OnPathAt(t, k, 1, 1);
    assert forall p, k' :: Holds(t, p, k') ==> p == 1 && k' == k;
    var t' := t[0 := RNode(k, -1, Exist)];
    assert Holds(t', 0, k) && Holds(t', 1, k);
  }

  // Runs of the table under the discipline of searching before inserting.

  datatype TableOp = Enrol(k: Key) | Drop(k: Key)

  function TableStep(t: seq<RNode>, op: TableOp): seq<RNode> {
    var p := Find(t, op.k);
    match op
    case Enrol(k) => if p == -1 && InsertPos(t, k) != -1 then t[InsertPos(t, k) := RNode(k, -1, Exist)] else t
    case Drop(k) => if p == -1 then t else t[p := t[p].ShallowDelete()]
  }

  function TableRun(t: seq<RNode>, ops: seq<TableOp>): seq<RNode>
    decreases |ops|
  {
    if ops == [] then t else TableRun(TableStep(t, ops[0]), ops[1..])
  }

  lemma MapKeys(t: seq<RNode>)
    ensures TableMap(t).Keys == Keys(t)
  {
  }

  /** Enrolling adds the key's binding where there is none, if a row can be had, and otherwise changes nothing. */
  lemma EnrolAdds(t: seq<RNode>, k: Key)
    requires TableOK(t)
    ensures var t' := TableStep(t, Enrol(k)); var p := InsertPos(t, k);
            && TableOK(t') && |t'| == |t|
            && (k in Keys(t) || p == -1 ==> t' == t)
            && (k !in Keys(t) && p != -1 ==> TableMap(t') == TableMap(t)[k := p] && t'[p].entry == -1)
            && Keys(t') == (if p == -1 then Keys(t) else Keys(t) + {k})
            && forall q :: 0 <= q < |t| && t[q].stat.Exist? ==> t'[q] == t[q]
  {
    FindRefinesLookup(t, k, Find(t, k));
    if Find(t, k) == -1 && InsertPos(t, k) != -1 {
      InsertRefinesUpdate(t, k, RNode(k, -1, Exist));
      MapKeys(t);
      MapKeys(TableStep(t, Enrol(k)));
      FreshRowFree(t, k);
    }
  }

  lemma FreshRowFree(t: seq<RNode>, k: Key)
    requires k !in Keys(t) && InsertPos(t, k) != -1
    ensures 0 <= InsertPos(t, k) < |t| && !t[InsertPos(t, k)].stat.Exist?
  {
    if t[InsertPos(t, k)].stat.Exist? {
      HeldIsKey(t, InsertPos(t, k), k);
    }
  }

  /** Dropping removes the key's binding and no other; the row left behind still has its key and entry. */
  lemma DropRemoves(t: seq<RNode>, k: Key)
    requires TableOK(t)
    ensures k in Keys(t) ==> var p, t' := Find(t, k), TableStep(t, Drop(k));
                             p != -1 && |t'| == |t| && t'[p] == RNode(k, t[p].entry, Deleted)
    ensures var t' := TableStep(t, Drop(k));
            && TableOK(t') && |t'| == |t|
            && TableMap(t') == TableMap(t) - {k} && Keys(t') == Keys(t) - {k}
            && forall q :: 0 <= q < |t| && t[q].stat.Exist? && t[q].key != k ==> t'[q] == t[q]
  {
    var t' := TableStep(t, Drop(k));
    FindRefinesLookup(t, k, Find(t, k));
    if Find(t, k) != -1 {
      DeleteRefinesRemoval(t, k);
    }
    MapKeys(t);
    MapKeys(t');
    assert Find(t, k) == -1 ==> TableMap(t) - {k} == TableMap(t);
  }

  lemma TableStepKeeps(t: seq<RNode>, op: TableOp)
    requires TableOK(t)
    ensures TableOK(TableStep(t, op))
  {
    match op
    case Enrol(k) => EnrolAdds(t, k);
    case Drop(k) => DropRemoves(t, k);
  }

  /** Every table reached by searching before inserting, and by deleting, satisfies the invariant. */
  lemma {:induction false} TableRunKeeps(t: seq<RNode>, ops: seq<TableOp>)
    requires TableOK(t)
    ensures TableOK(TableRun(t, ops))
    decreases |ops|
  {
    if ops != [] {
      TableStepKeeps(t, ops[0]);
      TableRunKeeps(TableStep(t, ops[0]), ops[1..]);
    }
  }

  /** Every enrolment of the run finds a row. */
  predicate RoomThroughout(t: seq<RNode>, ops: seq<TableOp>)
    decreases |ops|
  {
    ops == [] ||
    ((ops[0].Enrol? ==> InsertPos(t, ops[0].k) != -1) && RoomThroughout(TableStep(t, ops[0]), ops[1..]))
  }

  /** The keys that stand after the operations on a set: each is in or out as the last operation on it says. */
  function Standing(ks: set<Key>, ops: seq<TableOp>): set<Key> {
    if ops == [] then ks
    else if ops[|ops| - 1].Enrol? then Standing(ks, ops[..|ops| - 1]) + {ops[|ops| - 1].k}
    else Standing(ks, ops[..|ops| - 1]) - {ops[|ops| - 1].k}
  }

  lemma {:induction false} StandingFirst(ks: set<Key>, ops: seq<TableOp>)
    requires ops != []
    ensures Standing(ks, ops) == Standing(if ops[0].Enrol? then ks + {ops[0].k} else ks - {ops[0].k}, ops[1..])
  {
    if |ops| == 1 {
      assert ops[..0] == [] && ops[1..] == [];
    } else {
      var front := ops[..|ops| - 1];
      StandingFirst(ks, front);
      assert front[1..] == ops[1..][..|ops| - 2];
    }
  }

  /** A run that never lacks a row registers exactly the keys whose last operation enrols them. */
  lemma {:induction false} TableRunRegisters(t: seq<RNode>, ops: seq<TableOp>)
    requires TableOK(t) && RoomThroughout(t, ops)
    ensures Keys(TableRun(t, ops)) == Standing(Keys(t), ops)
    decreases |ops|
  {
    if ops != [] {
      match ops[0] {
        case Enrol(k) => EnrolAdds(t, k);
        case Drop(k) => DropRemoves(t, k);
      }
      TableRunRegisters(TableStep(t, ops[0]), ops[1..]);
      StandingFirst(Keys(t), ops);
    }
  }

  /** A key's row stays where it is, with its entry, until the key is dropped, whatever else the run does. */
  lemma {:induction false} RowStays(t: seq<RNode>, ops: seq<TableOp>, k: Key)
    requires TableOK(t) && k in Keys(t) && Drop(k) !in ops
    ensures Find(t, k) != -1 && Find(TableRun(t, ops), k) == Find(t, k)
    ensures |TableRun(t, ops)| == |t| && TableRun(t, ops)[Find(t, k)] == t[Find(t, k)]
    decreases |ops|
  {
    var p := Find(t, k);
    FindRefinesLookup(t, k, p);
    if ops != [] {
      var t' := TableStep(t, ops[0]);
      match ops[0] {
        case Enrol(j) => EnrolAdds(t, j);
        case Drop(j) => assert ops[0] in ops; DropRemoves(t, j);
      }
      FindRefinesLookup(t', k, p);
      HeldIsKey(t', p, k);
      RowStays(t', ops[1..], k);
    }
  }
}
