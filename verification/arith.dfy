/** Powers and the division facts the codecs rely on: splitting a number into
    digit groups (hexadecimal, Base64 sextets, bit fields) is division and
    remainder by a power of the radix. */
module Arith {

  function Pow(b: nat, e: nat): (r: nat)
    requires b > 0
    ensures r > 0
  {
    if e == 0 then 1 else b * Pow(b, e - 1)
  }

  function Pow2(e: nat): (r: nat)
    ensures r > 0
  {
    Pow(2, e)
  }

  lemma {:induction false} PowAdd(b: nat, e1: nat, e2: nat)
    requires b > 0
    ensures Pow(b, e1 + e2) == Pow(b, e1) * Pow(b, e2)
  {
    if e1 > 0 {
      PowAdd(b, e1 - 1, e2);
      assert Pow(b, e1 + e2) == b * Pow(b, e1 - 1 + e2);
      assert b * (Pow(b, e1 - 1) * Pow(b, e2)) == (b * Pow(b, e1 - 1)) * Pow(b, e2);
    }
  }

  /** A multiple of a positive `d` strictly between `-d` and `d` is zero. */
  lemma MultipleInsideBound(d: int, k: int)
    requires d > 0 && -d < d * k < d
    ensures k == 0
  {
  }

  /** Euclidean division is characterised by its quotient and remainder. */
  lemma DivModUnique(n: int, d: int, q: int, r: int)
    requires d > 0 && 0 <= r < d && n == d * q + r
    ensures n / d == q && n % d == r
  {
    var q', r' := n / d, n % d;
    assert d * (q' - q) == r - r';
    MultipleInsideBound(d, q' - q);
  }

  /** Dividing by `a` and then by `b` is dividing by `a * b`; reducing modulo
      `a * b` keeps the low `a`-part and the next `b`-part of a number. */
  lemma DivDiv(n: nat, a: nat, b: nat)
    requires a > 0 && b > 0
    ensures n / a / b == n / (a * b)
    ensures (n % (a * b)) / a == (n / a) % b
    ensures (n % (a * b)) % a == n % a
  {
    var q, r := n / (a * b), n % (a * b);
    var r1, r0 := r / a, r % a;
    assert r == a * r1 + r0;
    assert r1 < b;
    assert n == a * (b * q + r1) + r0 by {
      assert n == (a * b) * q + r;
    }
    DivModUnique(n, a, b * q + r1, r0);
    DivModUnique(n / a, b, q, r1);
    DivModUnique(r, a, r1, r0);
  }

  /** A number written as `high * m + low` with `low < m` splits back into
      `high` and `low`. */
  lemma SplitAt(high: nat, low: nat, m: nat)
    requires 0 <= low < m
    ensures (high * m + low) / m == high
    ensures (high * m + low) % m == low
  {
    DivModUnique(high * m + low, m, high, low);
  }

  /** The arithmetic behind `SetBits`, for field unit `p` and field size `q`. */
  lemma FieldReplace(x: nat, p: nat, q: nat, v: nat, r: int)
    requires p > 0 && 0 <= v < q
    requires r == x - ((x / p) % q) * p + v * p
    ensures r >= 0
    ensures r % p == x % p
    ensures (r / p) % q == v
    ensures r / (p * q) == x / (p * q)
  {
    var high, field, low := x / (p * q), (x / p) % q, x % p;
    DivDiv(x, p, q);
    assert x / p == q * high + field;
    assert x == p * (x / p) + low;
    assert p * (x / p) == p * (q * high) + p * field;
    FieldSplit(p, q, high, v, low, r);
  }

  /** `p * (q * high + v) + low` splits into its three parts. */
  lemma FieldSplit(p: nat, q: nat, high: nat, v: nat, low: nat, r: int)
    requires p > 0 && 0 <= v < q && low < p
    requires r == p * (q * high + v) + low
    ensures r >= 0
    ensures r % p == low
    ensures (r / p) % q == v
    ensures r / (p * q) == high
  {
    var m := q * high + v;
    assert p * m >= 0;
    assert r == m * p + low;
    SplitAt(m, low, p);
    assert r / p == m && r % p == low;
    SplitAt(high, v, q);
    assert m / q == high && m % q == v;
    DivDiv(r, p, q);
  }
}
