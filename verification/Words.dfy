/** Machine words, and the host memory that recorded handles are read from. */
module Words {
  const U64: int := 0x1_0000_0000_0000_0000

  type Word = x: int | 0 <= x < U64

  type Pid = x: int | -0x8000_0000 <= x < 0x8000_0000

  /** One process's memory: the 64-bit word held at each address it has written. */
  type Host = map<Word, Word>

  function Deref(host: Host, a: Word): Word {
    if a in host then host[a] else 0
  }

  lemma SmallMultiple(d: int, n: int)
    requires -n < d * n < n
    ensures d == 0
  {
  }

  /** The quotient and remainder of a division are determined by one equation. */
  lemma ModIs(x: int, n: int, q: int, r: int)
    requires 0 <= r < n
    requires x == q * n + r
    ensures x % n == r
  {
    assert (q - x / n) * n == x % n - r;
    SmallMultiple(q - x / n, n);
  }

  /** A running sum may be reduced at any point. */
  lemma AddWord(x: nat, y: nat)
    ensures (x % U64 + y) % U64 == (x + y) % U64
  {
  }
}
