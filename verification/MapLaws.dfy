/** Laws of finite maps used where bytes move between accounts. */
module MapLaws {
  lemma MinusSum<K, V>(a: map<K, V>, b: map<K, V>, h: K)
    ensures (a + b) - {h} == (a - {h}) + (b - {h})
  {
  }

  lemma SetLeft<K, V>(a: map<K, V>, b: map<K, V>, h: K, v: V)
    requires h !in b
    ensures a[h := v] + b == (a + b)[h := v]
  {
  }

  lemma SetRight<K, V>(a: map<K, V>, b: map<K, V>, h: K, v: V)
    ensures a + b[h := v] == (a + b)[h := v]
  {
  }

  lemma MinusSet<K, V>(m: map<K, V>, h: K, v: V)
    ensures (m - {h})[h := v] == m[h := v]
    ensures h in m ==> m[h := m[h]] == m
    ensures (m - {h}) - {h} == m - {h}
  {
  }

  lemma MinusAbsent<K, V>(m: map<K, V>, h: K)
    requires h !in m
    ensures m - {h} == m
  {
  }

  lemma SetTwice<K, V>(m: map<K, V>, k: K, a: V, b: V)
    ensures m[k := a][k := b] == m[k := b]
  {
  }

  lemma CancelLeft<K, V>(a: map<K, V>, b: map<K, V>, c: map<K, V>)
    requires a.Keys !! b.Keys && a.Keys !! c.Keys
    requires a + b == a + c
    ensures b == c
  {
    forall k ensures k in b <==> k in c {
      assert k in a + b <==> k in a || k in b;
      assert k in a + c <==> k in a || k in c;
    }
    forall k | k in b ensures b[k] == c[k] {
      assert (a + b)[k] == b[k] && (a + c)[k] == c[k];
    }
  }
}
