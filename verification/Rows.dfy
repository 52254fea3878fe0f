/** Row-major addressing. Products and quotients are spelt out as repeated steps, which
    is how the proofs use them; `TimesIs` and `QuotIs` say what they are. */
module Rows {

  function Times(n: int, size: int): int
    decreases if n < 0 then -n else n
  {
    if n == 0 then 0 else if n > 0 then Times(n - 1, size) + size else Times(n + 1, size) - size
  }

  function Quot(n: int, size: nat): int
    requires size > 0
  {
    if n < size then 0 else 1 + Quot(n - size, size)
  }

  function Rem(n: int, size: nat): int
    requires size > 0
  {
    if n < size then n else Rem(n - size, size)
  }

  lemma {:induction false} TimesIs(n: int, size: int)
    ensures Times(n, size) == n * size
    decreases if n < 0 then -n else n
  {
    if n > 0 {
      TimesIs(n - 1, size);
      assert (n - 1) * size == n * size - size;
    } else if n < 0 {
      TimesIs(n + 1, size);
      assert (n + 1) * size == n * size + size;
    }
  }

  lemma {:induction false} QuotIs(n: nat, size: nat)
    requires size > 0
    ensures Quot(n, size) == n / size && Rem(n, size) == n % size
  {
    if n >= size {
      QuotIs(n - size, size);
      OneLess(n, size);
    } else {
      Small(n, size);
    }
  }

  lemma {:induction false} Small(n: nat, size: nat)
    requires n < size
    ensures n / size == 0 && n % size == n
  {
  }

  lemma {:induction false} OneLess(n: nat, size: nat)
    requires 0 < size <= n
    ensures n / size == (n - size) / size + 1 && n % size == (n - size) % size
  {
    var k := n / size - (n - size) / size - 1;
    assert n == n / size * size + n % size && n - size == (n - size) / size * size + (n - size) % size;
    assert k * size == (n - size) % size - n % size;
    assert k >= 1 ==> (k - 1) * size >= 0;
    assert k <= -1 ==> (-k - 1) * size >= 0;
  }

  lemma {:induction false} TimesOne(n: nat)
    ensures Times(n, 1) == n && Quot(n, 1) == n
  {
    if n > 0 { TimesOne(n - 1); }
  }

  lemma {:induction false} TimesMore(n: int, size: int)
    ensures Times(n + 1, size) == Times(n, size) + size
  {
  }

  lemma {:induction false} TimesNat(n: nat, size: nat)
    ensures Times(n, size) >= 0
  {
    if n > 0 { TimesNat(n - 1, size); }
  }

  lemma {:induction false} AtLeast(n: nat, size: nat)
    requires size > 0
    ensures Times(n, size) >= n
  {
    if n > 0 { AtLeast(n - 1, size); }
  }

  /** Rows do not overlap. */
  lemma {:induction false} Ordered(a: nat, b: nat, size: nat)
    requires a < b
    ensures 0 <= Times(a, size) && Times(a, size) + size <= Times(b, size)
    decreases b
  {
    TimesNat(a, size);
    if a < b - 1 { Ordered(a, b - 1, size); }
  }

  lemma {:induction false} Unique(q: nat, size: nat, r: nat)
    requires r < size
    ensures Quot(Times(q, size) + r, size) == q && Rem(Times(q, size) + r, size) == r
  {
    if q > 0 {
      TimesNat(q - 1, size);
      Unique(q - 1, size, r);
      assert Times(q, size) + r - size == Times(q - 1, size) + r;
    }
  }

  lemma {:induction false} Rebuilt(n: nat, size: nat)
    requires size > 0
    ensures 0 <= Rem(n, size) < size && 0 <= Quot(n, size) && Times(Quot(n, size), size) + Rem(n, size) == n
  {
    if n >= size {
      Rebuilt(n - size, size);
      TimesMore(Quot(n - size, size), size);
    }
  }

  /** A position among `count` rows is in exactly one of them. */
  lemma {:induction false} Slot(n: nat, size: nat, count: nat, c: nat)
    requires size > 0 && c < count && n < Times(count, size)
    ensures Times(c, size) <= n < Times(c, size) + size <==> Quot(n, size) == c
    ensures 0 <= Quot(n, size) < count && 0 <= Rem(n, size) < size && n == Times(Quot(n, size), size) + Rem(n, size)
  {
    var q := Quot(n, size);
    Rebuilt(n, size);
    if count < q { Ordered(count, q, size); }
    if q < c { Ordered(q, c, size); }
    if c < q { Ordered(c, q, size); }
  }

  lemma {:induction false} Divided(n: nat, size: nat, count: nat)
    requires size > 0 && n < Times(count, size)
    ensures 0 <= Quot(n, size) < count
  {
    Rebuilt(n, size);
    var q := Quot(n, size);
    if count < q { Ordered(count, q, size); }
  }

  lemma {:induction false} IndexUnique(size: nat, x: nat, y: nat, x': nat, y': nat)
    requires x < size && x' < size
    ensures Times(y, size) + x == Times(y', size) + x' <==> x == x' && y == y'
  {
    Unique(y, size, x);
    Unique(y', size, x');
  }

  lemma {:induction false} IndexInside(size: nat, count: nat, x: nat, y: nat)
    requires x < size && y < count
    ensures 0 <= Times(y, size) + x < Times(count, size)
  {
    Ordered(y, count, size);
  }
}
