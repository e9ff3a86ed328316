/** Arithmetic modulo the group order. */
module ModArith {

  ghost predicate IsPrime(q: nat) {
    q >= 2 && forall d: nat | 2 <= d < q :: q % d != 0
  }

  function Modadd(a: int, b: int, m: nat): nat
    requires m > 0
  {
    (a + b) % m
  }

  function Modneg(a: int, m: nat): nat
    requires m > 0
  {
    (-a) % m
  }

  function Modsub(a: int, b: int, m: nat): nat
    requires m > 0
  {
    Modadd(a, Modneg(b, m), m)
  }

  function Modmul(a: int, b: int, m: nat): nat
    requires m > 0
  {
    (a * b) % m
  }

  lemma ModWitness(x: int, m: nat) returns (k: int)
    requires m > 0
    ensures x % m == x + m * k
  {
    k := -(x / m);
    assert x == m * (x / m) + x % m;
  }

  lemma ModPlus(x: int, m: nat, k: int)
    requires m > 0
    ensures (x + m * k) % m == x % m
  {
    var a := x / m;
    assert x == m * a + x % m;
    assert x + m * k == m * (a + k) + x % m;
    ModUnique(x + m * k, m, a + k, x % m);
  }

  lemma QuotientUnique(m: nat, a: int, r: int, b: int, s: int)
    requires 0 <= r < m && 0 <= s < m && m * a + r == m * b + s
    ensures a == b && r == s
  {
    if a > b {
      AtLeast(m, a - b);
    } else if a < b {
      AtLeast(m, b - a);
    }
  }

  lemma {:induction false} AtLeast(m: nat, d: int)
    requires d >= 1
    ensures m * d >= m
  {
    assert m * d == m + m * (d - 1);
    if d > 1 {
      AtLeast(m, d - 1);
    }
  }

  lemma ModUnique(x: int, m: nat, a: int, r: int)
    requires m > 0 && 0 <= r < m && x == m * a + r
    ensures x % m == r
  {
    QuotientUnique(m, x / m, x % m, a, r);
  }

  lemma SameResidue(x: int, y: int, m: nat) returns (k: int)
    requires m > 0 && x % m == y % m
    ensures x == y + m * k
  {
    var i := ModWitness(x, m);
    var j := ModWitness(y, m);
    k := j - i;
    assert m * k == m * j - m * i;
  }

  lemma AddMul(a: int, b: int, c: int, m: nat) returns (k: int)
    requires m > 0
    ensures Modadd(a, Modmul(b, c, m), m) == a + b * c + m * k
  {
    var i := ModWitness(b * c, m);
    var j := ModWitness(a + Modmul(b, c, m), m);
    k := i + j;
    assert m * k == m * i + m * j;
  }

  lemma SubMul(a: int, b: int, c: int, m: nat) returns (k: int)
    requires m > 0
    ensures Modsub(a, Modmul(b, c, m), m) == a - b * c + m * k
  {
    var i := ModWitness(b * c, m);
    var bc: int := Modmul(b, c, m);
    var n := ModWitness(-bc, m);
    var j := ModWitness(a + Modneg(bc, m), m);
    k := j + n - i;
    assert m * k == m * j + m * n - m * i;
  }

  // ----- inverses -----

  /** A common divisor, as a combination of both numbers, and the quotients by it. */
  datatype Bezout = Bezout(g: nat, x: int, y: int, qa: nat, qb: nat)

  function ExtendedGcd(a: nat, b: nat): (r: Bezout)
    ensures a * r.x + b * r.y == r.g
    ensures a == r.g * r.qa && b == r.g * r.qb
    decreases b
  {
    if b == 0 then
      assert a * 1 + b * 0 == a;
      Bezout(a, 1, 0, 1, 0)
    else
      var d, n := a / b, a % b;
      var e := ExtendedGcd(b, n);
      GcdStep(a, b, d, n, e.g, e.x, e.y, e.qa, e.qb);
      Bezout(e.g, e.y, e.x - d * e.y, e.qa * d + e.qb, e.qa)
  }

  lemma GcdStep(a: nat, b: nat, d: nat, n: nat, g: nat, x: int, y: int, qa: nat, qb: nat)
    requires a == b * d + n && b * x + n * y == g && b == g * qa && n == g * qb
    ensures a * y + b * (x - d * y) == g
    ensures a == g * (qa * d + qb)
  {
    assert a * y == (b * d + n) * y == b * d * y + n * y;
    assert b * (x - d * y) == b * x - b * d * y;
    assert b * d == g * qa * d;
    assert g * (qa * d + qb) == g * qa * d + g * qb;
  }

  /** The inverse modulo a prime; of zero, some number. */
  function Inverse(a: int, q: nat): (r: nat)
    requires q > 0
    ensures r < q
    ensures IsPrime(q) && a % q != 0 ==> (a * r) % q == 1
  {
    var x := ExtendedGcd(a % q, q).x;
    assert IsPrime(q) && a % q != 0 ==> (a * (x % q)) % q == 1 by {
      if IsPrime(q) && a % q != 0 {
        InverseWorks(a, q);
      }
    }
    x % q
  }

  lemma InverseWorks(a: int, q: nat)
    requires IsPrime(q) && a % q != 0
    ensures (a * (ExtendedGcd(a % q, q).x % q)) % q == 1
  {
    var e := ExtendedGcd(a % q, q);
    PrimeGcd(q, a % q, e.g, e.qa, e.qb);
    var i := ModWitness(a, q);
    var j := ModWitness(e.x, q);
    Reduced(a, e.x, e.y, q, a % q, e.x % q, i, j);
    ModUnique(a * (e.x % q), q, a * j - i * e.x - e.y, 1);
  }

  lemma Reduced(a: int, x: int, y: int, q: nat, a': int, x': int, i: int, j: int)
    requires a' == a + q * i && x' == x + q * j && a' * x + q * y == 1
    ensures a * x' == q * (a * j - i * x - y) + 1
  {
    assert a * x' == a * x + q * (a * j);
    assert a' * x == a * x + q * (i * x);
    assert q * (a * j - i * x - y) == q * (a * j) - q * (i * x) - q * y;
  }

  lemma PrimeGcd(q: nat, a: nat, g: nat, qa: nat, qb: nat)
    requires IsPrime(q) && 0 < a < q && a == g * qa && q == g * qb
    ensures g == 1
  {
    assert g != 0 && qa >= 1 && qb >= 1;
    assert g <= g * qa;
    if g >= 2 {
      assert q == g * qb + 0;
      ModUnique(q, g, qb, 0);
    }
  }

  lemma InverseWitness(a: int, q: nat) returns (k: int)
    requires IsPrime(q) && a % q != 0
    ensures a * Inverse(a, q) == 1 + q * k
  {
    assert 1 % q == 1;
    k := SameResidue(a * Inverse(a, q), 1, q);
  }

  /** A product of numbers that are not multiples of a prime is not one either. */
  lemma ProductNonzero(a: int, b: int, q: nat)
    requires IsPrime(q) && a % q != 0 && b % q != 0
    ensures (a * b) % q != 0
  {
    if (a * b) % q == 0 {
      var i := InverseWitness(a, q);
      var j := ModWitness(a * b, q);
      Cancelled(a, b, q, Inverse(a, q), i, j);
      ModUnique(b, q, -(Inverse(a, q) * j) - i * b, 0);
    }
  }

  lemma Cancelled(a: int, b: int, q: nat, v: int, i: int, j: int)
    requires a * v == 1 + q * i && a * b + q * j == 0
    ensures b == q * (-(v * j) - i * b)
  {
    assert (a * v) * b == b + q * (i * b);
    assert (a * v) * b == v * (a * b) == -(q * (v * j));
    assert q * (-(v * j) - i * b) == -(q * (v * j)) - q * (i * b);
  }

  lemma ProductZero(a: int, b: int, q: nat)
    requires q > 0 && (a % q == 0 || b % q == 0)
    ensures (a * b) % q == 0
  {
    if a % q == 0 {
      var k := ModWitness(a, q);
      assert a * b == q * (-k * b) + 0;
      ModUnique(a * b, q, -k * b, 0);
    } else {
      var k := ModWitness(b, q);
      assert a * b == q * (-k * a) + 0;
      ModUnique(a * b, q, -k * a, 0);
    }
  }

  lemma ModTwice(a: int, q: nat)
    requires q > 0
    ensures a % q % q == a % q
  {
  }

  lemma InverseNonzero(a: int, q: nat)
    requires IsPrime(q) && a % q != 0
    ensures Inverse(a, q) % q != 0
  {
    if Inverse(a, q) % q == 0 {
      ProductZero(a, Inverse(a, q), q);
    }
  }

  /** Multiplying by an inverse does not reach zero from elsewhere. */
  lemma TimesInverse(b: int, a: int, q: nat)
    requires IsPrime(q) && a % q != 0
    ensures (b * Inverse(a, q)) % q != 0 <==> b % q != 0
  {
    InverseNonzero(a, q);
    if b % q != 0 {
      ProductNonzero(b, Inverse(a, q), q);
    } else {
      ProductZero(b, Inverse(a, q), q);
    }
  }
}
