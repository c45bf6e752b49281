/** Facts about division by a number that is not a literal. */
module Arith {
  lemma MultipleMod(k: nat, a: nat)
    requires a > 0
    ensures k * a % a == 0
  {
    var n := k * a;
    QuotientUnique(n, a, k, n / a);
  }

  lemma QuotientUnique(n: int, a: int, k: int, q: int)
    requires a > 0 && n == k * a && q * a <= n < q * a + a
    ensures k == q
  {
    if k > q { AtLeast(k - q, a); Distribute(k, q, a); }
    if k < q { AtLeast(q - k, a); Distribute(q, k, a); }
  }

  lemma AtLeast(x: int, a: int)
    requires x >= 1 && a > 0
    ensures x * a >= a
  {
  }

  lemma Distribute(x: int, y: int, a: int)
    ensures (x - y) * a == x * a - y * a
  {
  }

  lemma RemainderUnique(n: nat, a: int, k: int, r: int)
    requires a > 0 && n == k * a + r && 0 <= r < a
    ensures n % a == r
  {
    var q := n / a;
    if k > q { AtLeast(k - q, a); Distribute(k, q, a); }
    if k < q { AtLeast(q - k, a); Distribute(q, k, a); }
  }

  lemma DivTrans(n: nat, b: nat, a: nat)
    requires a > 0 && b > 0 && n % b == 0 && b % a == 0
    ensures n % a == 0
  {
    var k, m := n / b, b / a;
    assert n == k * b && b == m * a;
    assert n == (k * m) * a by { Assoc(k, m, a); }
    MultipleMod(k * m, a);
  }

  lemma Assoc(k: nat, m: nat, a: nat)
    ensures k * (m * a) == (k * m) * a
  {
  }

  /** The parts of a number cut at `u`. */
  lemma Cut(q: nat, u: nat, r: nat)
    requires r < u
    ensures (q * u + r) / u == q && (q * u + r) % u == r
  {
    var n := q * u + r;
    assert n == n / u * u + n % u;
    RemainderUnique(n, u, q, r);
    QuotientIs(n, u, q, r);
  }

  lemma QuotientIs(n: nat, u: int, q: int, r: int)
    requires u > 0 && n == q * u + r && 0 <= r < u
    ensures n / u == q
  {
    var k := n / u;
    if q > k { AtLeast(q - k, u); Distribute(q, k, u); }
    if q < k { AtLeast(k - q, u); Distribute(k, q, u); }
  }

  /** Dividing twice is dividing by the product. */
  lemma DivDiv(w: nat, a: nat, b: nat)
    requires a > 0 && b > 0
    ensures a * b > 0 && w / (a * b) == w / a / b
    ensures w % (a * b) == w / a % b * a + w % a
  {
    var q1, r1 := w / a, w % a;
    var q, r := q1 / b, q1 % b;
    DivMod(w, a);
    DivMod(q1, b);
    Expand(q, b, r, a);
    AtLeast(b, a);
    Below(r, b, a);
    QuotientIs(w, a * b, q, r * a + r1);
    RemainderUnique(w, a * b, q, r * a + r1);
  }

  lemma DivMod(w: nat, a: nat)
    requires a > 0
    ensures w == w / a * a + w % a && 0 <= w % a < a
  {
  }

  lemma Expand(q: nat, b: nat, r: nat, a: nat)
    ensures (q * b + r) * a == q * (a * b) + r * a
  {
  }

  lemma Below(r: nat, b: nat, a: nat)
    requires r < b && a > 0
    ensures r * a + a <= a * b
  {
    Distribute(b, r, a);
    AtLeast(b - r, a);
  }

  /** The field of width `u` at `unit`, when what lies from `unit` on is `top` above it. */
  lemma Layer(w: nat, unit: nat, top: nat, u: nat, v: nat)
    requires unit > 0 && v < u && w / unit == top * u + v
    ensures w / unit % u == v && unit * u > 0 && w / (unit * u) == top
  {
    DivDiv(w, unit, u);
    Cut(top, u, v);
  }

  /** Sums and differences of multiples. */
  lemma AlignedSum(x: int, y: int, z: int, n: nat)
    requires n in {1, 2, 4} && x % n == 0 && y % n == 0 && z % n == 0
    ensures (x + y - z) % n == 0
  {
    if n == 2 { SumOfEvens(x, y, z); } else if n == 4 { SumOfFours(x, y, z); }
  }

  lemma SumOfEvens(x: int, y: int, z: int)
    requires x % 2 == 0 && y % 2 == 0 && z % 2 == 0
    ensures (x + y - z) % 2 == 0
  {
  }

  lemma SumOfFours(x: int, y: int, z: int)
    requires x % 4 == 0 && y % 4 == 0 && z % 4 == 0
    ensures (x + y - z) % 4 == 0
  {
  }

  /** A multiple of 4096 is one of 1, 2 and 4. */
  lemma PageMultiple(pages: nat, n: nat)
    requires n in {1, 2, 4}
    ensures pages * 4096 % n == 0
  {
    if n == 2 { EvenPage(pages); } else if n == 4 { FourPage(pages); }
  }

  lemma EvenPage(pages: nat) ensures pages * 4096 % 2 == 0 {}

  lemma FourPage(pages: nat) ensures pages * 4096 % 4 == 0 {}
}
