/** When the probes of a key visit every row of the table, and what that means for insertion. */
module ProbeCoverage {
  import opened Words
  import opened Rows
  import opened ProbeTable

  /** The 64-bit addition in the hash is harmless: it does not wrap, or wraps by a multiple of the table length. */
  predicate WrapHarmless(k: Key, n: nat)
    requires n > 0
  {
    PreHash(k) + n <= U64 || U64 % n == 0
  }

  ghost predicate Probed(k: Key, n: nat, p: nat)
    requires n > 0
  {
    exists i: nat :: i < n && Probe(k, n, i) == p
  }

  ghost predicate Covers(k: Key, n: nat)
    requires n > 0
  {
    forall p: nat :: p < n ==> Probed(k, n, p)
  }

  lemma WrappedResidue(x: int, n: nat)
    requires 0 < n && U64 % n == 0 && U64 <= x < 2 * U64
    ensures x % U64 % n == x % n
  {
    ModIs(x, U64, 1, x - U64);
    var q, r := (x - U64) / n, (x - U64) % n;
    assert (q + U64 / n) * n == q * n + U64 / n * n;
    ModIs(x, n, q + U64 / n, r);
  }

  lemma ProbeResidue(k: Key, n: nat, i: nat)
    requires 0 < n && i < n && WrapHarmless(k, n)
    ensures Probe(k, n, i) == (PreHash(k) + i) % n
  {
    var x := PreHash(k) + i;
    if x < U64 {
      ModIs(x, U64, 0, x);
    } else if n <= U64 {
      WrappedResidue(x, n);
    } else {
      ModIs(U64, n, 0, U64);
    }
  }

  lemma ResidueShift(s: int, n: nat, i: nat, p: nat)
    requires 0 < n && i < n && p < n
    ensures (s + i) % n == p <==> i == (p - s) % n
  {
    if (s + i) % n == p {
      var q := (s + i) / n;
      assert p - s == (-q) * n + i;
      ModIs(p - s, n, -q, i);
    }
    if i == (p - s) % n {
      var q := (p - s) / n;
      assert s + i == (-q) * n + p;
      ModIs(s + i, n, -q, p);
    }
  }

  /** Every row is probed exactly once: row `p` at step (p - seed) mod n and at no other. */
  lemma ProbeVisitsOnce(k: Key, n: nat, i: nat, p: nat)
    requires 0 < n && i < n && p < n
    requires WrapHarmless(k, n)
    ensures Probe(k, n, i) == p <==> i == (p - PreHash(k)) % n
  {
    ProbeResidue(k, n, i);
    ResidueShift(PreHash(k), n, i, p);
  }

  /** A row no probe reaches when the addition wraps by an amount the table length does not divide. */
  function MissedRow(k: Key, n: nat): (m: nat)
    requires 0 < n < U64 && !WrapHarmless(k, n)
    ensures m < n
  {
    var w := U64 - PreHash(k);
    var r := U64 % n;
    if r >= w then n - 1 else n + r - w - 1
  }

  lemma ResidueBelow(x: int, n: nat, d: nat)
    requires 0 < d < n
    ensures (x - d) % n == if x % n >= d then x % n - d else x % n - d + n
  {
    var q := x / n;
    if x % n >= d {
      ModIs(x - d, n, q, x % n - d);
    } else {
      assert (q - 1) * n == q * n - n;
      ModIs(x - d, n, q - 1, x % n - d + n);
    }
  }

  lemma MissedRowMissed(k: Key, n: nat, i: nat)
    requires 0 < n < U64 && i < n && !WrapHarmless(k, n)
    ensures Probe(k, n, i) != MissedRow(k, n)
  {
    var w := U64 - PreHash(k);
    if i >= w {
      ModIs(PreHash(k) + i, U64, 1, i - w);
      ModIs(i - w, n, 0, i - w);
    } else {
      ModIs(PreHash(k) + i, U64, 0, PreHash(k) + i);
      ResidueBelow(U64, n, w - i);
    }
  }

  /** The probes cover the table exactly when the wrap is harmless. */
  lemma CoverageExact(k: Key, n: nat)
    requires 0 < n < U64
    ensures Covers(k, n) <==> WrapHarmless(k, n)
  {
    if WrapHarmless(k, n) {
      forall p: nat | p < n ensures Probed(k, n, p) {
        var i := (p - PreHash(k)) % n;
        ProbeVisitsOnce(k, n, i, p);
      }
    } else {
      forall i: nat | i < n ensures Probe(k, n, i) != MissedRow(k, n) {
        MissedRowMissed(k, n, i);
      }
      assert !Probed(k, n, MissedRow(k, n));
    }
  }

  ghost predicate FullForOthers(t: seq<RNode>, k: Key) {
    forall p :: 0 <= p < |t| ==> t[p].stat.Exist? && t[p].key != k
  }

  /** With covering probes, insertion fails exactly when every row is in use by another key. */
  lemma InsertFailsExactly(t: seq<RNode>, k: Key)
    requires 0 < |t| < U64 && WrapHarmless(k, |t|)
    ensures InsertPos(t, k) == -1 <==> FullForOthers(t, k)
  {
    InsertLands(t, k, 0);
    if InsertPos(t, k) == -1 {
      forall p | 0 <= p < |t| ensures t[p].stat.Exist? && t[p].key != k {
        var i := (p - PreHash(k)) % |t|;
        ProbeVisitsOnce(k, |t|, i, p);
      }
    }
  }

  /** Without them it also fails on a table that has a free row: one row free, and no probe reaches it. */
  lemma InsertFailsEarly(k: Key, n: nat, other: Key)
    requires 0 < n < U64 && !WrapHarmless(k, n) && other != k
    ensures var t := seq(n, (p: int) => if p == MissedRow(k, n) then INITIAL_ROW else RNode(other, -1, Exist));
            InsertPos(t, k) == -1 && !FullForOthers(t, k)
  {
    var t := seq(n, (p: int) => if p == MissedRow(k, n) then INITIAL_ROW else RNode(other, -1, Exist));
    InsertLands(t, k, 0);
    if InsertPos(t, k) != -1 {
      var m: nat :| m < n && Probe(k, n, m) == InsertPos(t, k);
      MissedRowMissed(k, n, m);
    }
    assert !t[MissedRow(k, n)].stat.Exist?;
  }

  /** The default key (-1, 0) on the default 101 rows is such a key. */
  lemma DefaultKeyMissesRows()
    ensures PreHash(Key(-1, 0)) == U64 - 64
    ensures !Covers(Key(-1, 0), 101)
  {
    CoverageExact(Key(-1, 0), 101);
  }

  /** The seed is pid * 64 + start time modulo 2^64, for negative pids too. */
  lemma SeedIs(k: Key)
    ensures PreHash(k) == (k.pid * 64 + k.t) % U64
  {
    var x := k.pid % U64;
    var q, r := x * 64 / U64, x * 64 % U64;
    var w := if r + k.t >= U64 then 1 else 0;
    assert k.pid * 64 + k.t == (k.pid / U64 * 64 + q) * U64 + (r + k.t);
    ModIs(r + k.t, U64, w, r + k.t - w * U64);
    ModIs(k.pid * 64 + k.t, U64, k.pid / U64 * 64 + q + w, r + k.t - w * U64);
  }

  /** A real process, with a pid of at least zero and a start time that leaves room below 2^64, never wraps. */
  lemma RealKeysDoNotWrap(k: Key, n: nat)
    requires 0 < n
    requires k.pid >= 0 && k.pid * 64 + k.t + n <= U64
    ensures WrapHarmless(k, n) && PreHash(k) == k.pid * 64 + k.t
  {
    SeedIs(k);
    ModIs(k.pid * 64 + k.t, U64, 0, k.pid * 64 + k.t);
  }
}
