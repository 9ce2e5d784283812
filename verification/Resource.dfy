/**
 * One process's handle on the shared arrays: the operations as the program runs them, in place.
 * Index -1 is the end of a chain wherever a walk meets it. `host` is the memory of the calling process, from
 * which recorded addresses are read, and `live` the set of processes that exist.
 */
module Resource {
  import opened Words
  import opened Slots
  import opened Rows
  import opened ProbeTable
  import opened Chains
  import opened Store
  import opened Refinement
  import opened Capacity
  import opened Usage
  import opened ReRegistration
  import opened UsageWalk

  /** The record at the end of the search for `h` along chain `c`, -1 if there is none. */
  function FoundSlot(s: seq<GMem>, c: seq<int>, host: Host, h: Word): int {
    var i := FindRec(host, Records(s, c), h);
    if i == -1 then -1 else c[i]
  }

  /** What a caller of the usage count as written sees. */
  datatype Count = Returned(used: Word) | StillWalking | PastSlab

  class RNM {
    const key: Key
    const rnodes: array<RNode>
    const gmems: array<GMem>

    ghost function View(): Store
      reads rnodes, gmems
    {
      Store(rnodes[..], gmems[..])
    }

    ghost predicate Valid()
      reads rnodes, gmems
    {
      WF(View())
    }

    /** Creates and initialises both arrays. */
    constructor (k: Key, rows: nat, slots: nat)
      ensures key == k && fresh(rnodes) && fresh(gmems)
      ensures View() == InitialStore(rows, slots) && Valid()
    {
      key := k;
      rnodes := new RNode[rows];
      gmems := new GMem[slots];
      new;
      for i := 0 to rows
        invariant forall j :: 0 <= j < i ==> rnodes[j] == INITIAL_ROW
      {
        rnodes[i] := INITIAL_ROW;
      }
      for i := 0 to slots
        invariant forall j :: 0 <= j < rows ==> rnodes[j] == INITIAL_ROW
        invariant forall j :: 0 <= j < i ==> gmems[j] == INITIAL_SLOT
      {
        gmems[i] := INITIAL_SLOT;
      }
      assert View() == InitialStore(rows, slots);
      InitialOK(rows, slots);
    }

    /** Attaches to arrays another process has initialised. */
    constructor Attach(k: Key, table: array<RNode>, slab: array<GMem>)
      ensures key == k && rnodes == table && gmems == slab
    {
      key := k;
      rnodes := table;
      gmems := slab;
    }

    // The process table.

    method InsertRnode(k: Key, val: RNode) returns (p: int)
      modifies rnodes
      ensures p == InsertPos(old(rnodes[..]), k)
      ensures rnodes[..] == if p == -1 then old(rnodes[..]) else old(rnodes[..])[p := val]
    {
      var i := 0;
      while i < rnodes.Length
        invariant 0 <= i <= rnodes.Length
        invariant rnodes[..] == old(rnodes[..])
        invariant InsertPos(rnodes[..], k) == InsertFrom(rnodes[..], k, i)
      {
        var pos := Probe(k, rnodes.Length, i);
        if rnodes[pos].stat.NonExist? || rnodes[pos].stat.Deleted? {
          rnodes[pos] := val;
          return pos;
        }
        if rnodes[pos].SameKey(k) {
          rnodes[pos] := val;
          return pos;
        }
        i := i + 1;
      }
      return -1;
    }

    method FindRnode(k: Key) returns (p: int)
      ensures p == Find(rnodes[..], k)
    {
      var i := 0;
      while i < rnodes.Length
        invariant 0 <= i <= rnodes.Length
        invariant Find(rnodes[..], k) == FindFrom(rnodes[..], k, i)
      {
        var pos := Probe(k, rnodes.Length, i);
        if rnodes[pos].stat.NonExist? {
          return -1;
        } else if rnodes[pos].stat.Exist? {
          if rnodes[pos].SameKey(k) {
            return pos;
          }
        }
        i := i + 1;
      }
      return -1;
    }

    /** Leaves a tombstone; what the row's chain holds is not released. */
    method DeleteRnode(k: Key)
      requires Valid()
      modifies rnodes
      ensures View() == RowDeleted(old(View()), k) && Valid()
    {
      ghost var st := View();
      var p := FindRnode(k);
      if p != -1 {
        rnodes[p] := rnodes[p].ShallowDelete();
      }
      DeleteRowKeepsWF(st, k);
    }

    method Contain(k: Key) returns (b: bool)
      requires Valid()
      ensures b <==> k in Ledger(View())
    {
      var p := FindRnode(k);
      b := p != -1;
      FindRefinesLookup(rnodes[..], k, p);
    }

    // The slab.

    /** First fit. */
    method PushGmem(a: Word, b: Word) returns (g: int)
      modifies gmems
      ensures g == FirstEmpty(old(gmems[..]))
      ensures gmems[..] == if g == -1 then old(gmems[..]) else old(gmems[..])[g := GMem(a, b, -1)]
    {
      var i := 0;
      while i < gmems.Length
        invariant 0 <= i <= gmems.Length
        invariant gmems[..] == old(gmems[..])
        invariant FirstEmpty(gmems[..]) == FirstEmptyFrom(gmems[..], i)
      {
        if gmems[i].Empty() {
          gmems[i] := gmems[i].SetRes(a, b);
          gmems[i] := gmems[i].SetNext(-1);
          return i;
        }
        i := i + 1;
      }
      return -1;
    }

    /** The last link of the chain from `idx`, found in at most as many calls as the slab has slots. */
    method LastRec(idx: int, ghost c: seq<int>) returns (tail: int, ghost calls: nat)
      requires c != [] && IsChain(gmems[..], idx, c)
      ensures tail == c[|c| - 1]
      ensures calls == |c| <= gmems.Length
      decreases |c|
    {
      ChainBound(gmems[..], idx, c);
      assert LinkOK(gmems[..], c, 0);
      if gmems[idx].IsTail() {
        assert |c| == 1 by {
          if |c| > 1 {
            NextInRange(gmems[..], idx, c);
          }
        }
        return idx, 1;
      }
      ChainTail(gmems[..], idx, c);
      tail, calls := LastRec(gmems[idx].next, c[1..]);
      calls := calls + 1;
    }

    method LinkRnodeGmem(row: int, g: int)
      requires InUse(View(), row) && RowChainOK(View(), row)
      modifies rnodes, gmems
      ensures View() == Linked(old(View()), row, g)
    {
      if rnodes[row].entry == -1 {
        rnodes[row] := rnodes[row].SetRecEntry(g);
      } else {
        ghost var c := ChainAt(View(), row);
        var tail, calls := LastRec(rnodes[row].entry, c);
        assert LinkOK(gmems[..], c, |c| - 1);
        if tail != g {
          gmems[tail] := gmems[tail].SetNext(g);
        }
      }
    }

    /** The first link whose variable holds `h`, found in at most as many steps as the slab has slots. */
    method FindGmem(row: int, host: Host, h: Word) returns (g: int, ghost steps: nat)
      requires InUse(View(), row) && RowChainOK(View(), row)
      ensures g == FoundSlot(gmems[..], ChainAt(View(), row), host, h)
      ensures steps <= gmems.Length
    {
      ghost var c := ChainAt(View(), row);
      ghost var recs := Records(gmems[..], c);
      ChainBound(gmems[..], rnodes[row].entry, c);
      ChainInBounds(gmems[..], rnodes[row].entry, c);
      g := rnodes[row].entry;
      steps := 0;
      while g != -1 && !gmems[g].Empty()
        invariant steps <= |c| && g == At(c, steps)
        invariant forall j :: 0 <= j < steps ==> Deref(host, recs[j].ptr) != h
        decreases gmems.Length - steps
      {
        assert LinkOK(gmems[..], c, steps);
        if Deref(host, gmems[g].ptr) == h {
          assert recs[steps] == SlotRec(gmems[..], g);
          return;
        }
        g := gmems[g].next;
        steps := steps + 1;
      }
    }

    /**
     * Registers `b` bytes for the variable at `a`, as written: a handle already on the chain is
     * overwritten and then linked again. With no row for the key it dereferences the null pointer that the
     * insertion returns, before anything has been written.
     */
    method AddGmem(host: Host, a: Word, b: Word) returns (faulted: bool)
      requires Valid() && a != 0
      modifies rnodes, gmems
      ensures faulted <==> !Room(old(rnodes[..]), key)
      ensures faulted ==> View() == old(View())
      ensures !faulted ==> View() == Add(old(View()), host, key, a, b)
      ensures !faulted ==> (Valid() <==> FreshOrLast(old(Recs(View(), key)), host, a))
    {
      ghost var st := View();
      var row := FindRnode(key);
      if row == -1 {
        row := InsertRnode(key, RNode(key, -1, Exist));
        if row == -1 {
          return true;
        }
      }
      faulted := false;
      ReRegistrationExact(st, host, key, a, b);
      EnterKeeps(st, key);
      ghost var e := View();
      assert e == Store(Entered(st.t, key), st.s) && row == RowFor(st.t, key);
      assert RowChainOK(e, row);
      ghost var c := ChainAt(e, row);
      ChainInBounds(e.s, e.t[row].entry, c);
      var g, steps := FindGmem(row, host, Deref(host, a));
      if g == -1 {
        g := PushGmem(a, b);
      } else {
        gmems[g] := gmems[g].SetRes(a, b);
      }
      assert gmems[..] == Stored(e, row, host, a, b).0;
      assert g == Stored(e, row, host, a, b).1;
      ChainFound(gmems[..], e.t[row].entry, c);
      LinkRnodeGmem(row, g);
    }

    /**
     * Unlinks the first link of `c` whose variable holds `h`. `prev` is the link before `g`, -1 at the head.
     * The recursion goes on after a match, but from a slot whose `next` has just been reset.
     */
    method RemoveGmemByDptr(prev: int, g: int, host: Host, h: Word, ghost c: seq<int>) returns (ghost calls: nat)
      requires IsChain(gmems[..], g, c)
      requires prev == -1 || (0 <= prev < gmems.Length && prev !in c)
      modifies gmems
      ensures forall j: nat :: j < |c| ==> 0 <= c[j] < gmems.Length
      ensures gmems[..] == UnlinkedAfter(old(gmems[..]), prev, c, FindRec(host, Records(old(gmems[..]), c), h))
      ensures calls <= gmems.Length + 1
      ensures calls <= |c| + 1
      decreases |c|
    {
      ghost var s := gmems[..];
      ChainBound(s, g, c);
      ChainInBounds(s, g, c);
      if g == -1 {
        NilChain(s, c);
      } else {
        assert LinkOK(s, c, 0);
      }
      if g == -1 || gmems[g].Empty() {
        return 1;
      }
      ghost var recs := Records(s, c);
      assert recs[0] == SlotRec(s, g);
      if Deref(host, gmems[g].ptr) == h {
        if prev == -1 {
          gmems[g] := gmems[g].ShallowDelete();
        } else {
          gmems[prev] := gmems[prev].SetNext(gmems[g].next);
          gmems[g] := gmems[g].ShallowDelete();
        }
        calls := RemoveGmemByDptr(g, gmems[g].next, host, h, []);
      } else {
        ChainTail(s, g, c);
        UnlinkedAfterStep(s, prev, c, host, h);
        calls := RemoveGmemByDptr(g, gmems[g].next, host, h, c[1..]);
      }
      calls := calls + 1;
    }

    /** Unregisters handle `h`, with the entry moved past a removed head. */
    method RemoveGmem(host: Host, h: Word)
      requires Valid()
      modifies rnodes, gmems
      ensures View() == Remove(old(View()), host, key, h) && Valid()
    {
      ghost var st := View();
      RemoveRefinesLedger(st, host, key, h);
      var row := FindRnode(key);
      if row == -1 {
        return;
      }
      KeyRow(st, key);
      var entry := rnodes[row].entry;
      ghost var c := ChainAt(st, row);
      ChainInBounds(st.s, entry, c);
      if entry == -1 {
        NilChain(st.s, c);
      } else {
        assert LinkOK(st.s, c, 0);
      }
      var after := if entry == -1 then -1 else gmems[entry].next;
      var calls := RemoveGmemByDptr(-1, entry, host, h, c);
      UnlinkedAfterHead(st.s, c, PosOf(st, host, key, h));
      if entry != -1 && gmems[entry].Empty() {
        rnodes[row] := rnodes[row].SetRecEntry(after);
      }
    }

    /** Unregisters handle `h` as written: the entry is never moved. */
    method RemoveGmemAsWritten(host: Host, h: Word)
      requires Valid()
      modifies gmems
      ensures View() == RemoveAsWritten(old(View()), host, key, h)
      ensures Valid() <==> PosOf(old(View()), host, key, h) != 0
    {
      ghost var st := View();
      RemoveAsWrittenExact(st, host, key, h);
      var row := FindRnode(key);
      if row == -1 {
        return;
      }
      KeyRow(st, key);
      ghost var c := ChainAt(st, row);
      ChainInBounds(st.s, rnodes[row].entry, c);
      var calls := RemoveGmemByDptr(-1, rnodes[row].entry, host, h, c);
      UnlinkedAfterHead(st.s, c, PosOf(st, host, key, h));
    }

    /** The inner walk of the usage count: `used` plus the bytes on one row's chain, in 64 bits. */
    method AddChainBytes(row: int, used: Word) returns (sum: Word, ghost steps: nat)
      requires InUse(View(), row) && RowChainOK(View(), row)
      ensures sum == (used + SumRecs(Records(gmems[..], ChainAt(View(), row)))) % U64
      ensures steps <= gmems.Length
    {
      ghost var s := gmems[..];
      ghost var c := ChainAt(View(), row);
      ghost var recs := Records(s, c);
      steps := 0;
      ChainBound(s, rnodes[row].entry, c);
      ChainInBounds(s, rnodes[row].entry, c);
      sum := used;
      var gi := rnodes[row].entry;
      while gi > -1
        invariant steps <= |c| && gi == At(c, steps)
        invariant sum == (used + SumRecs(recs[..steps])) % U64
        decreases gmems.Length - steps
      {
        assert LinkOK(s, c, steps);
        SumPrefix(recs, steps);
        AddWord(used + SumRecs(recs[..steps]), recs[steps].bytes);
        sum := (sum + gmems[gi].bytes) % U64;
        gi := gmems[gi].next;
        steps := steps + 1;
      }
      assert recs[..steps] == recs;
    }

    /** Total bytes of the live processes, in 64 bits. */
    method GmemUsed(live: set<Key>) returns (used: Word)
      requires Valid()
      ensures used == Used(View(), live) % U64
    {
      used := 0;
      var i := 0;
      while i < rnodes.Length
        invariant 0 <= i <= rnodes.Length
        invariant used == UsedUpTo(View(), live, i) % U64
      {
        if rnodes[i].stat.Exist? {
          if rnodes[i].key in live {
            assert RowChainOK(View(), i);
            var sum, steps := AddChainBytes(i, used);
            used := sum;
          }
        }
        i := i + 1;
      }
    }

    /**
     * The inner walk of the usage count as written, which steps to the successor of slot `i` whatever link it is
     * at. A caller who waits for any number of rounds gets an answer exactly when the walk ends.
     */
    method AddHeadBytes(i: int, used: Word, rounds: nat) returns (r: Count)
      requires Valid() && InUse(View(), i) && rounds >= 1
      ensures r.Returned? <==> EndsAtOnce(View(), i)
      ensures r.Returned? ==> r.used == (used + HeadBytes(View(), i)) % U64
      ensures r.PastSlab? <==> rnodes[i].entry > -1
                               && (i >= gmems.Length || (rounds > 1 && gmems[i].next >= gmems.Length))
    {
      var sum := used;
      var gi := rnodes[i].entry;
      if gi > -1 {
        EntryFilled(View(), i);
      }
      var n: nat := 0;
      while gi > -1
        invariant n <= rounds
        invariant n == 0 ==> gi == rnodes[i].entry && sum == used
        invariant n > 0 ==> i < gmems.Length && gi == gmems[i].next && rnodes[i].entry > -1
        invariant n == 1 ==> sum == (used + HeadBytes(View(), i)) % U64
        invariant n > 1 ==> -1 < gmems[i].next < gmems.Length
        decreases rounds - n
      {
        if n == rounds {
          return StillWalking;
        }
        if gi >= gmems.Length || i >= gmems.Length {
          return PastSlab;
        }
        sum := (sum + gmems[gi].bytes) % U64;
        gi := gmems[i].next;
        n := n + 1;
      }
      r := Returned(sum);
    }

    /** The usage count as written: it returns exactly when every inner walk ends, having counted first records. */
    method GmemUsedAsWritten(live: set<Key>, rounds: nat) returns (r: Count)
      requires Valid() && rounds >= 1
      ensures r.Returned? <==> forall i: nat :: i < rnodes.Length && Counted(View(), live, i) ==> EndsAtOnce(View(), i)
      ensures r.Returned? ==> r.used == HeadsUpTo(View(), live, rnodes.Length) % U64
      ensures r.PastSlab? ==> exists i: nat :: i < rnodes.Length && Counted(View(), live, i)
                                             && (i >= gmems.Length || gmems[i].next >= gmems.Length)
    {
      var used: Word := 0;
      var i := 0;
      while i < rnodes.Length
        invariant 0 <= i <= rnodes.Length
        invariant forall j: nat :: j < i && Counted(View(), live, j) ==> EndsAtOnce(View(), j)
        invariant used == HeadsUpTo(View(), live, i) % U64
      {
        if rnodes[i].stat.Exist? {
          if rnodes[i].key in live {
            assert Counted(View(), live, i);
            r := AddHeadBytes(i, used, rounds);
            if !r.Returned? {
              return;
            }
            AddWord(HeadsUpTo(View(), live, i), HeadBytes(View(), i));
            used := r.used;
          }
        }
        i := i + 1;
      }
      r := Returned(used);
    }
  }
}
