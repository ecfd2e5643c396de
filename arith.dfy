/** Small facts about integer multiplication, division and remainder that the
    index arithmetic of the tensor model needs and the solver does not find alone. */
module Arith {

  lemma MulMono(a: int, b: int, c: int)
    requires a <= b && 0 <= c
    ensures a * c <= b * c
  {
  }

  /** Division and remainder are determined by any decomposition k == q * m + r with 0 <= r < m. */
  lemma DivModUnique(k: int, m: int, q: int, r: int)
    requires 0 < m && 0 <= r < m && k == q * m + r
    ensures k / m == q && k % m == r
  {
    var q', r' := k / m, k % m;
    assert k == q' * m + r';
    if q' > q {
      MulMono(q + 1, q', m);
    } else if q' < q {
      MulMono(q' + 1, q, m);
    }
  }

  /** A mixed-radix number stays below its range: appending a digit `y < x`
      to `r < p` gives a value below `p * x`. */
  lemma DigitBound(r: int, p: int, y: int, x: int)
    requires 0 <= r < p && 0 <= y < x
    ensures r * x + y < p * x
  {
    MulMono(r + 1, p, x);
  }

  lemma Distribute(a: int, p: int, b: int, c: int)
    ensures (a * p + b) * c == a * (p * c) + b * c
  {
  }

  lemma Rotate(a: int, x: int, b: int)
    ensures a * x * b == x * (a * b)
  {
  }

  /** If k < p * m, then the quotient k / m is below p. */
  lemma DivBelow(k: nat, m: int, p: int)
    requires 0 < m && k < p * m
    ensures 0 <= k / m < p
  {
    if k / m >= p {
      MulMono(p, k / m, m);
    }
  }

  /** Mixed-radix remainder: dropping the low digit, reducing, and putting it back
      is reduction modulo the product of the two radices. */
  lemma ModOfMod(k: nat, c: int, p: int)
    requires 0 < c && 0 < p
    ensures 0 < p * c
    ensures ((k / c) % p) * c + k % c == k % (p * c)
  {
    var q, r := k / c, k % c;
    var a, b := q / p, q % p;
    MulMono(1, p, c);
    MulMono(0, b, c);
    Distribute(a, p, b, c);
    assert k == a * (p * c) + (b * c + r);
    DigitBound(b, p, r, c);
    DivModUnique(k, p * c, a, b * c + r);
  }
}
