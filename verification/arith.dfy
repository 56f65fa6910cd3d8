/** Facts about integer multiplication and Euclidean division that the
    solver does not find on its own. */
module Arith {

  lemma MulMono(a: int, b: int, c: int)
    requires a <= b && c >= 0
    ensures a * c <= b * c
  {
    assert b * c - a * c == (b - a) * c;
  }

  lemma DivUnique(a: int, d: int, q: int, m: int)
    requires d > 0 && 0 <= m < d && a == q * d + m
    ensures a / d == q
  {
    var q' := a / d;
    var m' := a % d;
    assert a == q' * d + m';
    assert (q - q') * d == m' - m;
    if q > q' {
      MulMono(1, q - q', d);
    } else if q < q' {
      MulMono(1, q' - q, d);
    }
  }

  lemma DivCancel(t: int, n: int, size: int)
    requires t >= 0 && n > 0 && size > 0
    ensures (t * n) / (n * size) == t / size
  {
    var q := t / size;
    var m := t % size;
    assert t == q * size + m;
    Distributes(q * size, m, n);
    Associates(q, size, n);
    assert m * n < n * size by {
      MulMono(m + 1, size, n);
      assert (m + 1) * n == m * n + n;
    }
    assert 0 <= m * n;
    DivUnique(t * n, n * size, q, m * n);
  }

  lemma Distributes(x: int, y: int, n: int)
    ensures (x + y) * n == x * n + y * n
  {
  }

  lemma Associates(q: int, size: int, n: int)
    ensures q * size * n == q * (n * size)
  {
  }

  lemma DivMono(a: int, b: int, d: int)
    requires 0 <= a <= b && d > 0
    ensures a / d <= b / d
  {
    var qa, qb := a / d, b / d;
    if qa > qb {
      MulMono(qb + 1, qa, d);
      assert false;
    }
  }
}
