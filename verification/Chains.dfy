/** Chains threaded through the slab by integer indices; -1 is the end. */
module Chains {
  import opened Words
  import opened Slots

  /** The i-th index of a chain, or -1 past its end. */
  function At(c: seq<int>, i: nat): int {
    if i < |c| then c[i] else -1
  }

  ghost predicate LinkOK(s: seq<GMem>, c: seq<int>, i: nat)
    requires i < |c|
  {
    0 <= c[i] < |s| && !s[c[i]].Empty() && s[c[i]].next == At(c, i + 1)
  }

  /** Following `next` from `g` visits exactly `c`, all non-empty slots, and then reaches -1. */
  ghost predicate IsChain(s: seq<GMem>, g: int, c: seq<int>) {
    && g == At(c, 0)
    && forall i: nat {:trigger LinkOK(s, c, i)} :: i < |c| ==> LinkOK(s, c, i)
  }

  lemma ChainTail(s: seq<GMem>, g: int, c: seq<int>)
    requires IsChain(s, g, c) && c != [] && 0 <= g < |s|
    ensures IsChain(s, s[g].next, c[1..])
  {
    assert LinkOK(s, c, 0);
    forall i: nat | i < |c[1..]| ensures LinkOK(s, c[1..], i) {
      assert LinkOK(s, c, i + 1);
    }
  }

  lemma InChain(s: seq<GMem>, g: int, c: seq<int>, x: int)
    requires IsChain(s, g, c) && x in c
    ensures 0 <= x < |s| && !s[x].Empty()
  {
    var i: nat :| i < |c| && c[i] == x;
    assert LinkOK(s, c, i);
  }

  /** A chain that ends does not repeat a slot. */
  lemma {:induction false} NoRepeat(s: seq<GMem>, g: int, c: seq<int>, i: nat, j: nat)
    requires IsChain(s, g, c)
    requires i < j < |c|
    ensures c[i] != c[j]
    decreases |c| - j
  {
    assert LinkOK(s, c, i) && LinkOK(s, c, j) && LinkOK(s, c, i + 1);
    if j + 1 < |c| {
      NoRepeat(s, g, c, i + 1, j + 1);
    }
  }

  lemma {:induction false} ChainsAgree(s: seq<GMem>, g: int, c: seq<int>, d: seq<int>, i: nat)
    requires IsChain(s, g, c) && IsChain(s, g, d)
    requires i <= |c|
    ensures i <= |d| && At(c, i) == At(d, i)
    decreases i
  {
    if i > 0 {
      ChainsAgree(s, g, c, d, i - 1);
      assert LinkOK(s, c, i - 1);
      if i - 1 < |d| {
        assert LinkOK(s, d, i - 1);
      }
    }
  }

  /** There is at most one chain from a given index. */
  lemma ChainUnique(s: seq<GMem>, g: int, c: seq<int>, d: seq<int>)
    requires IsChain(s, g, c) && IsChain(s, g, d)
    ensures c == d
  {
    ChainsAgree(s, g, c, d, |c|);
    ChainsAgree(s, g, d, c, |d|);
    forall i: nat | i < |c| ensures c[i] == d[i] {
      ChainsAgree(s, g, c, d, i);
    }
  }

  lemma NilChain(s: seq<GMem>, c: seq<int>)
    requires IsChain(s, -1, c)
    ensures c == []
  {
    ChainUnique(s, -1, c, []);
  }

  lemma DistinctBound(c: seq<int>, n: nat)
    requires forall i: nat :: i < |c| ==> 0 <= c[i] < n
    requires forall i: nat, j: nat :: i < j < |c| ==> c[i] != c[j]
    ensures |c| <= n
    ensures |SetOf(c)| == |c|
  {
    SetOfDistinct(c);
    SubsetSize(SetOf(c), UpTo(n));
  }

  function SetOf<T>(c: seq<T>): set<T> {
    set x | x in c
  }

  function UpTo(n: nat): (r: set<int>)
    ensures forall x :: x in r <==> 0 <= x < n
    ensures |r| == n
  {
    if n == 0 then {} else UpTo(n - 1) + {n - 1}
  }

  lemma SubsetSize<T>(a: set<T>, b: set<T>)
    requires a <= b
    ensures |a| <= |b|
    ensures |a| == |b| ==> a == b
  {
    assert b == a + (b - a);
    assert |b| == |a| + |b - a|;
  }

  lemma {:induction false} SetOfDistinct(c: seq<int>)
    requires forall i: nat, j: nat :: i < j < |c| ==> c[i] != c[j]
    ensures |SetOf(c)| == |c|
  {
    if c == [] {
      assert SetOf(c) == {};
    } else {
      var d := c[..|c| - 1];
      SetOfDistinct(d);
      assert SetOf(c) == SetOf(d) + {c[|c| - 1]};
    }
  }

  /** A chain has at most one link a slot. */
  lemma ChainBound(s: seq<GMem>, g: int, c: seq<int>)
    requires IsChain(s, g, c)
    ensures |c| <= |s|
    ensures |SetOf(c)| == |c|
  {
    forall i: nat | i < |c| ensures 0 <= c[i] < |s| {
      assert LinkOK(s, c, i);
    }
    forall i: nat, j: nat | i < j < |c| ensures c[i] != c[j] {
      NoRepeat(s, g, c, i, j);
    }
    DistinctBound(c, |s|);
  }

  /** The indices met in at most `fuel` steps from `g`. */
  function Walk(s: seq<GMem>, g: int, fuel: nat): seq<int>
    decreases fuel
  {
    if fuel == 0 || !(0 <= g < |s|) || s[g].Empty() then []
    else [g] + Walk(s, s[g].next, fuel - 1)
  }

  function ChainOf(s: seq<GMem>, g: int): seq<int> {
    Walk(s, g, |s|)
  }

  lemma {:induction false} WalkFollows(s: seq<GMem>, g: int, c: seq<int>, fuel: nat)
    requires IsChain(s, g, c) && |c| <= fuel
    ensures Walk(s, g, fuel) == c
    decreases fuel
  {
    if c != [] {
      assert LinkOK(s, c, 0);
      ChainTail(s, g, c);
      WalkFollows(s, s[g].next, c[1..], fuel - 1);
      assert [c[0]] + c[1..] == c;
    }
  }

  /** If a finite chain starts at `g`, the bounded walk finds it. */
  lemma ChainFound(s: seq<GMem>, g: int, c: seq<int>)
    requires IsChain(s, g, c)
    ensures ChainOf(s, g) == c
  {
    ChainBound(s, g, c);
    WalkFollows(s, g, c, |s|);
  }

  /** A chain depends only on its own slots. */
  lemma ChainFrame(s: seq<GMem>, s': seq<GMem>, g: int, c: seq<int>)
    requires IsChain(s, g, c) && |s'| == |s|
    requires forall x :: x in c && 0 <= x < |s| ==> s'[x] == s[x]
    ensures IsChain(s', g, c)
  {
    forall i: nat | i < |c| ensures LinkOK(s', c, i) {
      assert LinkOK(s, c, i);
    }
  }

  /** Linking an unused, filled slot `p` behind the last link. */
  lemma ChainAppend(s: seq<GMem>, g: int, c: seq<int>, p: int, a: Word, b: Word)
    requires IsChain(s, g, c) && c != []
    requires 0 <= p < |s| && p !in c && a != 0
    requires 0 <= c[|c| - 1] < |s|
    ensures var s1 := s[p := GMem(a, b, -1)];
            IsChain(s1[c[|c| - 1] := s1[c[|c| - 1]].SetNext(p)], g, c + [p])
  {
    var s1 := s[p := GMem(a, b, -1)];
    var s2 := s1[c[|c| - 1] := s1[c[|c| - 1]].SetNext(p)];
    var d := c + [p];
    forall i: nat | i < |d| ensures LinkOK(s2, d, i) {
      if i < |c| {
        assert LinkOK(s, c, i);
        if i < |c| - 1 {
          NoRepeat(s, g, c, i, |c| - 1);
        }
      }
    }
  }

  /** Rewriting the record of one link. */
  lemma ChainSetRes(s: seq<GMem>, g: int, c: seq<int>, i: nat, a: Word, b: Word)
    requires IsChain(s, g, c) && i < |c| && a != 0
    requires 0 <= c[i] < |s|
    ensures IsChain(s[c[i] := s[c[i]].SetRes(a, b)], g, c)
  {
    var s' := s[c[i] := s[c[i]].SetRes(a, b)];
    forall j: nat | j < |c| ensures LinkOK(s', c, j) {
      assert LinkOK(s, c, j);
    }
  }

  function Without<T>(c: seq<T>, i: nat): seq<T>
    requires i < |c|
  {
    c[..i] + c[i + 1..]
  }

  /** The slab after unlinking the i-th link of `c`; a head has no predecessor to relink. */
  function Unlinked(s: seq<GMem>, c: seq<int>, i: nat): seq<GMem>
    requires i < |c|
    requires forall j: nat :: j < |c| ==> 0 <= c[j] < |s|
  {
    var s1 := if i == 0 then s else s[c[i - 1] := s[c[i - 1]].SetNext(s[c[i]].next)];
    s1[c[i] := s1[c[i]].ShallowDelete()]
  }

  lemma ChainInBounds(s: seq<GMem>, g: int, c: seq<int>)
    requires IsChain(s, g, c)
    ensures forall j: nat :: j < |c| ==> 0 <= c[j] < |s| && !s[c[j]].Empty()
    ensures forall j: nat, k: nat :: j < k < |c| ==> c[j] != c[k]
  {
    forall j: nat | j < |c| ensures 0 <= c[j] < |s| && !s[c[j]].Empty() {
      assert LinkOK(s, c, j);
    }
    forall j: nat, k: nat | j < k < |c| ensures c[j] != c[k] {
      NoRepeat(s, g, c, j, k);
    }
  }

  /** Unlinking drops that one link and keeps the order, wherever it was. */
  lemma ChainUnlink(s: seq<GMem>, g: int, c: seq<int>, i: nat)
    requires IsChain(s, g, c) && i < |c|
    requires forall j: nat :: j < |c| ==> 0 <= c[j] < |s|
    ensures IsChain(Unlinked(s, c, i), if i == 0 then s[g].next else g, Without(c, i))
  {
    ChainInBounds(s, g, c);
    var s' := Unlinked(s, c, i);
    var d := Without(c, i);
    assert LinkOK(s, c, i);
    forall j: nat | j < |d| ensures LinkOK(s', d, j) {
      var k := if j < i then j else j + 1;
      assert d[j] == c[k];
      assert LinkOK(s, c, k);
      if k != i - 1 {
        assert s'[c[k]] == s[c[k]];
      }
    }
  }
}
