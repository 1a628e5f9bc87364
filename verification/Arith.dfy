/** The few facts about products and quotients by a symbolic width that the maps need. */
module Arith {

  lemma MulLe(a: int, b: int, w: int)
    requires a <= b && 0 <= w
    ensures a * w <= b * w
  {
  }

  lemma QuotientUnique(w: int, q: int, r: int, q': int, r': int)
    requires 0 <= r < w && 0 <= r' < w
    requires q * w + r == q' * w + r'
    ensures q == q' && r == r'
  {
    if q > q' {
      MulLe(q' + 1, q, w);
    } else if q < q' {
      MulLe(q + 1, q', w);
    }
  }

  lemma DivMod(w: int, q: int, r: int)
    requires 0 <= r < w
    ensures (q * w + r) / w == q && (q * w + r) % w == r
  {
    var x := q * w + r;
    assert x / w * w + x % w == x;
    QuotientUnique(w, x / w, x % w, q, r);
  }

  lemma DivBound(w: int, n: int, x: int)
    requires 0 < w && 0 <= x < n * w
    ensures 0 <= x / w < n && 0 <= x % w < w && x / w * w + x % w == x
  {
    assert x / w * w + x % w == x;
    if x / w >= n {
      MulLe(n, x / w, w);
    }
  }

  lemma DivAtLeast(w: int, n: int, x: int)
    requires 0 < w && 0 <= n
    ensures x >= n * w ==> x / w >= n
  {
    assert x / w * w + x % w == x;
    if x / w < n {
      MulLe(x / w + 1, n, w);
    }
  }

  lemma FlatBound(w: int, n: int, q: int, r: int)
    requires 0 <= q < n && 0 <= r < w
    ensures 0 <= q * w + r < n * w
  {
    MulLe(0, q, w);
    MulLe(q + 1, n, w);
    assert (q + 1) * w == q * w + w;
  }

  lemma QuotientNonNegative(w: int, x: int)
    requires 0 < w && 0 <= x
    ensures 0 <= x / w && 0 <= x % w
  {
  }
}
