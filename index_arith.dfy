/** Row-major index arithmetic: the facts every reshape, repeat and permute relies on. */
module IndexArith {

  /** Flat position of (o, i) in a row-major (_, n) view. */
  function Flat(o: int, i: int, n: int): int { o * n + i }

  /** Euclidean division is unique: a == q*d + r with 0 <= r < d fixes q and r. */
  lemma DivModUnique(a: int, d: int, q: int, r: int)
    requires d > 0 && 0 <= r < d && a == q * d + r
    ensures a / d == q && a % d == r
  {
    var q', r' := a / d, a % d;
    assert a == q' * d + r';
    if q' < q {
      MulStep(q', q, d);
      assert false;
    } else if q < q' {
      MulStep(q, q', d);
      assert false;
    }
  }

  lemma MulStep(a: int, b: int, d: nat)
    requires a < b
    ensures a * d + d <= b * d
  {
    MulMono(a + 1, b, d);
    assert (a + 1) * d == a * d + d;
  }

  lemma MulMono(a: int, b: int, d: nat)
    requires a <= b
    ensures a * d <= b * d
  {
    assert b * d - a * d == (b - a) * d;
  }

  /** Decoding a row-major position recovers its coordinates. */
  lemma FlatDecode(o: int, i: int, n: int)
    requires 0 <= i < n
    ensures Flat(o, i, n) / n == o && Flat(o, i, n) % n == i
  {
    DivModUnique(Flat(o, i, n), n, o, i);
  }

  /** A position built from in-range coordinates is in range. */
  lemma FlatBound(o: int, i: int, m: int, n: int)
    requires 0 <= o < m && 0 <= i < n
    ensures 0 <= Flat(o, i, n) < m * n
  {
    MulStep(o, m, n);
    MulMono(0, o, n);
  }

  /** A position below m*n has its first coordinate below m. */
  lemma DivBound(a: int, m: int, n: int)
    requires n > 0 && 0 <= a < m * n
    ensures 0 <= a / n < m && 0 <= a % n < n && a == Flat(a / n, a % n, n)
  {
    var q := a / n;
    assert a == q * n + a % n;
    if q < 0 {
      MulStep(q, 0, n);
      assert false;
    }
    if q >= m {
      MulMono(m, q, n);
      assert false;
    }
  }
}
