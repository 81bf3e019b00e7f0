/** Small shared vocabulary and arithmetic. */
module Common {

  newtype byte = x: int | 0 <= x < 256
  type Bytes = seq<byte>

  datatype Option<+T> = None | Some(value: T)

  lemma DivLower(z: int, q: int, w: int)
    requires w > 0 && z >= q * w
    ensures z / w >= q
  {
    if z / w < q {
      assert z == (z / w) * w + z % w;
      MulMonotone(z / w + 1, q, w);
    }
  }

  lemma DivUpper(z: int, q: int, w: int)
    requires w > 0 && z < (q + 1) * w
    ensures z / w <= q
  {
    if z / w > q {
      assert z == (z / w) * w + z % w;
      MulMonotone(q + 1, z / w, w);
    }
  }

  lemma MulMonotone(a: int, b: int, c: int)
    requires a <= b && c >= 0
    ensures a * c <= b * c
  {
  }

  lemma DivModUnique(x: int, m: int, q: int, r: int)
    requires 0 <= r < m && x == q * m + r
    ensures x / m == q && x % m == r
  {
    DivLower(x, q, m);
    assert (q + 1) * m == q * m + m;
    DivUpper(x, q, m);
    assert x == (x / m) * m + x % m;
  }

  lemma SubsetIsSmaller<T>(a: set<T>, b: set<T>)
    requires a <= b
    ensures |a| <= |b|
  {
    if a != {} {
      var x :| x in a;
      SubsetIsSmaller(a - {x}, b - {x});
    }
  }

  lemma CancelOne<T>(a: multiset<T>, b: multiset<T>, x: T)
    requires a + multiset{x} == b + multiset{x}
    ensures a == b
  {
    assert a == (a + multiset{x}) - multiset{x};
    assert b == (b + multiset{x}) - multiset{x};
  }

  /** Where the last element of one list is found in a permutation of it. */
  lemma FindElement<T>(a: seq<T>, last: T, b: seq<T>) returns (i: nat)
    requires multiset(a) + multiset{last} == multiset(b)
    ensures i < |b| && b[i] == last && multiset(a) == multiset(b[..i] + b[i + 1..])
  {
    assert last in multiset(b);
    i :| 0 <= i < |b| && b[i] == last;
    assert b == b[..i] + [b[i]] + b[i + 1..];
    CancelOne(multiset(a), multiset(b[..i] + b[i + 1..]), last);
  }
}
