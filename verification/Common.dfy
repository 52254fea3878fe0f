/** Notions shared by several components. */
module Common {

  datatype Option<T> = None | Some(value: T)

  /** The sequence with its element at `i` taken out. */
  function Without<A>(s: seq<A>, i: nat): seq<A>
    requires i < |s|
  {
    s[..i] + s[i + 1..]
  }

  lemma {:induction false} WithoutAt<A>(s: seq<A>, i: nat, j: nat)
    requires i < |s| && j + 1 < |s|
    ensures Without(s, i)[j] == s[if j < i then j else j + 1]
  {
  }

  lemma {:induction false} WithoutMember(s: seq<int>, i: nat, p: int)
    requires i < |s| && p in s && p != s[i]
    ensures p in Without(s, i)
  {
    var j :| 0 <= j < |s| && s[j] == p;
    assert Without(s, i)[if j < i then j else j - 1] == p;
  }

  lemma {:induction false} WithoutDistinct(s: seq<int>, i: nat)
    requires i < |s| && forall j, k :: 0 <= j < k < |s| ==> s[j] != s[k]
    ensures forall j, k :: 0 <= j < k < |Without(s, i)| ==> Without(s, i)[j] != Without(s, i)[k]
  {
  }

  /** Dividing twice is dividing by the product. */
  lemma {:induction false} DivTwice(u: nat, base: nat, p: nat)
    requires base > 0 && p > 0
    ensures base * p > 0 && u / base / p == u / (base * p)
  {
    var q := u / base;
    Split(u, base);
    Split(q, p);
    Product(q / p, p, q % p, base, u % base);
    Quotient(u, base * p, q / p, q % p * base + u % base);
  }

  lemma {:induction false} Split(u: nat, n: nat)
    requires n > 0
    ensures u == u / n * n + u % n && 0 <= u % n < n && u / n >= 0
  {
  }

  lemma {:induction false} Product(k: nat, p: nat, r: nat, base: nat, d: nat)
    requires r < p && d < base
    ensures (k * p + r) * base + d == k * (base * p) + (r * base + d) && 0 <= r * base + d < base * p
  {
    Spread(k, p, r, base);
    Room(r, p, base);
  }

  lemma {:induction false} Spread(k: int, p: int, r: int, base: int)
    ensures (k * p + r) * base == k * (base * p) + r * base
  {
  }

  lemma {:induction false} Room(r: nat, p: nat, base: nat)
    requires r < p
    ensures 0 <= r * base && r * base + base <= base * p
  {
    var m := p - 1 - r;
    assert m * base >= 0;
    assert (m + r + 1) * base == m * base + r * base + base;
  }

  lemma {:induction false} Quotient(u: nat, n: nat, k: nat, r: nat)
    requires n > 0 && u == k * n + r && r < n
    ensures u / n == k
  {
    var d := u / n - k;
    assert u == u / n * n + u % n;
    assert d * n == r - u % n;
    assert d >= 1 ==> (d - 1) * n >= 0;
    assert d <= -1 ==> (-d - 1) * n >= 0;
  }
}
