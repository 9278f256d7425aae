// Sums of multisets, as conservation laws need them.
module Multisets {
  lemma Difference<T>(a: multiset<T>, b: multiset<T>, c: multiset<T>, d: multiset<T>)
    requires a + b == c + d && b <= d
    ensures a == c + (d - b)
  {
    var r := c + (d - b);
    forall x: T ensures a[x] == r[x] {
      assert (a + b)[x] == (c + d)[x] && b[x] <= d[x];
    }
  }

  lemma Exchange<T>(a: multiset<T>, b: multiset<T>, c: multiset<T>, d: multiset<T>, e: multiset<T>, f: multiset<T>)
    requires a + b == c + d && e + d == f + b
    ensures a + e == c + f
  {
    var p, q := a + e, c + f;
    forall x: T ensures p[x] == q[x] {
      assert (a + b)[x] == (c + d)[x] && (e + d)[x] == (f + b)[x];
    }
  }

  lemma AddBoth<T>(a: multiset<T>, b: multiset<T>, c: multiset<T>, d: multiset<T>, e: multiset<T>)
    requires a + b == c + d
    ensures (a + e) + b == c + (d + e) && a + (b + e) == c + (d + e)
  {
    assert (a + e) + b == (a + b) + e && a + (b + e) == (a + b) + e;
  }
}
