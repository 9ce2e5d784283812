/** The usage count as written, whose inner walk steps with the row's index instead of the link's. */
module UsageWalk {
  import opened Words
  import opened Rows
  import opened Chains
  import opened Store
  import opened Usage

  /** Where the inner loop of row `i` stands after `n` rounds; it stops below zero. */
  function StandsAt(st: Store, i: nat, n: nat): int
    requires i < |st.t| && i < |st.s|
    decreases n
  {
    if n == 0 then st.t[i].entry
    else
      var gi := StandsAt(st, i, n - 1);
      if gi > -1 then st.s[i].next else gi
  }

  /** The bytes the inner loop has added after `n` rounds. */
  function AddedAfter(st: Store, i: nat, n: nat): nat
    requires i < |st.t| && i < |st.s|
    decreases n
  {
    if n == 0 then 0
    else
      var gi := StandsAt(st, i, n - 1);
      AddedAfter(st, i, n - 1) + if 0 <= gi < |st.s| then st.s[gi].bytes else 0
  }

  /** The inner loop of row `i` reaches an index below zero. */
  ghost predicate WalkEnds(st: Store, i: nat)
    requires i < |st.t| && i < |st.s|
  {
    exists n: nat :: StandsAt(st, i, n) <= -1
  }

  /** What a caller could look at: the row has no record, or the slot numbered like the row has no successor. */
  predicate EndsAtOnce(st: Store, i: nat)
    requires i < |st.t|
  {
    st.t[i].entry <= -1 || (i < |st.s| && st.s[i].next <= -1)
  }

  lemma {:induction false} WalkGoesRound(st: Store, i: nat, n: nat)
    requires i < |st.t| && i < |st.s| && !EndsAtOnce(st, i)
    ensures StandsAt(st, i, n) > -1
    decreases n
  {
    if n > 0 {
      WalkGoesRound(st, i, n - 1);
    }
  }

  /** The inner loop ends exactly when it ends within one round; otherwise it goes round for ever. */
  lemma WalkEndsExact(st: Store, i: nat)
    requires i < |st.t| && i < |st.s|
    ensures WalkEnds(st, i) <==> EndsAtOnce(st, i)
  {
    if EndsAtOnce(st, i) {
      assert StandsAt(st, i, 0) == st.t[i].entry;
      assert StandsAt(st, i, 1) <= -1;
    } else {
      forall n: nat ensures StandsAt(st, i, n) > -1 {
        WalkGoesRound(st, i, n);
      }
    }
  }

  predicate Counted(st: Store, live: set<Key>, i: int) {
    0 <= i < |st.t| && st.t[i].stat.Exist? && st.t[i].key in live
  }

  /** The bytes of the row's first record. */
  function HeadBytes(st: Store, i: int): nat
    requires 0 <= i < |st.t|
  {
    if 0 <= st.t[i].entry < |st.s| then st.s[st.t[i].entry].bytes else 0
  }

  /** When the inner loop has ended it has added the first record and nothing else. */
  lemma {:induction false} EndedWalkAddsHead(st: Store, i: nat, n: nat)
    requires i < |st.t| && i < |st.s|
    requires StandsAt(st, i, n) <= -1
    ensures AddedAfter(st, i, n) == HeadBytes(st, i)
    decreases n
  {
    if n > 0 {
      if StandsAt(st, i, n - 1) <= -1 {
        EndedWalkAddsHead(st, i, n - 1);
      } else if n > 1 {
        if EndsAtOnce(st, i) {
          assert StandsAt(st, i, 1) <= -1;
          StaysEnded(st, i, 1, n - 1);
        } else {
          WalkGoesRound(st, i, n);
        }
      }
    }
  }

  lemma {:induction false} StaysEnded(st: Store, i: nat, m: nat, n: nat)
    requires i < |st.t| && i < |st.s| && m <= n
    requires StandsAt(st, i, m) <= -1
    ensures StandsAt(st, i, n) <= -1
    decreases n
  {
    if m < n {
      StaysEnded(st, i, m, n - 1);
    }
  }

  function HeadsUpTo(st: Store, live: set<Key>, n: nat): nat
    requires n <= |st.t|
    decreases n
  {
    if n == 0 then 0
    else HeadsUpTo(st, live, n - 1) + if Counted(st, live, n - 1) then HeadBytes(st, n - 1) else 0
  }

  /** The bytes of the row's records after the first. */
  function TailBytes(st: Store, i: int): nat
    requires 0 <= i < |st.t|
  {
    var c := ChainAt(st, i);
    if c == [] then 0 else SumRecs(Records(st.s, c[1..]))
  }

  function TailsUpTo(st: Store, live: set<Key>, n: nat): nat
    requires n <= |st.t|
    decreases n
  {
    if n == 0 then 0
    else TailsUpTo(st, live, n - 1) + if Counted(st, live, n - 1) then TailBytes(st, n - 1) else 0
  }

  lemma HeadAndTail(st: Store, i: int)
    requires WF(st) && InUse(st, i)
    ensures SumRecs(Records(st.s, ChainAt(st, i))) == HeadBytes(st, i) + TailBytes(st, i)
  {
    var c := ChainAt(st, i);
    assert RowChainOK(st, i);
    if c != [] {
      assert LinkOK(st.s, c, 0);
      assert Records(st.s, c)[1..] == Records(st.s, c[1..]);
      assert Records(st.s, c)[0] == SlotRec(st.s, c[0]);
    }
  }

  lemma {:induction false} UsedSplits(st: Store, live: set<Key>, n: nat)
    requires WF(st) && n <= |st.t|
    ensures UsedUpTo(st, live, n) == HeadsUpTo(st, live, n) + TailsUpTo(st, live, n)
    decreases n
  {
    if n > 0 {
      UsedSplits(st, live, n - 1);
      if InUse(st, n - 1) {
        HeadAndTail(st, n - 1);
      }
    }
  }

  /** Every record after the first on a counted chain weighs nothing. */
  ghost predicate OnlyHeadsWeigh(st: Store, live: set<Key>, n: nat)
    requires n <= |st.t|
  {
    forall i :: 0 <= i < n && Counted(st, live, i) ==> TailBytes(st, i) == 0
  }

  lemma {:induction false} TailsWeighNothing(st: Store, live: set<Key>, n: nat)
    requires n <= |st.t|
    ensures TailsUpTo(st, live, n) == 0 <==> OnlyHeadsWeigh(st, live, n)
    decreases n
  {
    if n > 0 {
      TailsWeighNothing(st, live, n - 1);
    }
  }

  lemma SameWord(x: nat, y: nat)
    ensures x % U64 == (x + y) % U64 <==> y % U64 == 0
  {
  }

  /**
   * Where it ends, the count as written is the true one exactly when only first records weigh anything, and the
   * two 64-bit words are equal exactly when the later records' bytes add up to a multiple of 2^64.
   */
  lemma UsageAsWrittenExact(st: Store, live: set<Key>)
    requires WF(st)
    ensures HeadsUpTo(st, live, |st.t|) == Used(st, live) <==> OnlyHeadsWeigh(st, live, |st.t|)
    ensures HeadsUpTo(st, live, |st.t|) % U64 == Used(st, live) % U64 <==> TailsUpTo(st, live, |st.t|) % U64 == 0
  {
    UsedSplits(st, live, |st.t|);
    TailsWeighNothing(st, live, |st.t|);
    SameWord(HeadsUpTo(st, live, |st.t|), TailsUpTo(st, live, |st.t|));
  }
}
