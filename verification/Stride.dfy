/**
  Walking `0..n-1` with a fixed stride, modulo `n`. The dentry stressor removes its files and the
  cache stressor reads its buffer this way; which positions are reached, and how often, depends
  on the greatest common divisor of stride and size.
 */
module Stride {
  import opened Bits

  predicate Divides(d: nat, a: int) {
    d > 0 && a % d == 0
  }

  /** The greatest common divisor by Euclid's rule. */
  function Gcd(a: nat, b: nat): nat
    decreases b
  {
    if b == 0 then a else Gcd(b, a % b)
  }

  lemma DividesIff(d: nat, a: int, q: int)
    requires d > 0
    ensures a == d * q ==> Divides(d, a) && a / d == q
    ensures Divides(d, a) ==> a == d * (a / d)
  {
    if a == d * q { ModUnique(a, d, q, 0); }
  }

  lemma Factor(d: int, q: int, r: int, x: int, y: int)
    ensures (d * q) * x + (d * r) * y == d * (q * x + r * y)
  {}

  lemma MultipleIsLarge(p: nat, n: nat)
    requires p > 0 && n > 0 && Divides(p, n)
    ensures p <= n
  {
    DividesIff(p, n, 0);
    MulAtLeast(p, n / p);
  }

  lemma DividesCombination(d: nat, a: int, b: int, x: int, y: int)
    requires Divides(d, a) && Divides(d, b)
    ensures Divides(d, a * x + b * y)
  {
    DividesIff(d, a, 0); DividesIff(d, b, 0);
    var q, r := a / d, b / d;
    Factor(d, q, r, x, y);
    DividesIff(d, a * x + b * y, q * x + r * y);
  }

  /** Bezout: the greatest common divisor is a combination of the two numbers. */
  lemma {:induction false} Bezout(a: nat, b: nat) returns (x: int, y: int)
    ensures a * x + b * y == Gcd(a, b)
    decreases b
  {
    if b == 0 {
      x, y := 1, 0;
    } else {
      var u, v := Bezout(b, a % b);
      x, y := v, u - (a / b) * v;
      BezoutStep(b, a / b, a % b, u, v);
    }
  }

  lemma BezoutStep(b: int, q: int, r: int, u: int, v: int)
    ensures (b * q + r) * v + b * (u - q * v) == b * u + r * v
  {}

  /** It divides both numbers... */
  lemma {:induction false} GcdDivides(a: nat, b: nat)
    requires a > 0 || b > 0
    ensures Gcd(a, b) > 0 && Divides(Gcd(a, b), a) && Divides(Gcd(a, b), b)
    decreases b
  {
    if b > 0 {
      GcdDivides(b, a % b);
      assert a == b * (a / b) + a % b;
      DividesCombination(Gcd(a, b), b, a % b, a / b, 1);
    } else {
      ModUnique(a, a, 1, 0); ModUnique(0, a, 0, 0);
    }
  }

  /** ...and every common divisor divides it. */
  lemma GcdGreatest(a: nat, b: nat, d: nat)
    requires Divides(d, a) && Divides(d, b)
    ensures Divides(d, Gcd(a, b))
  {
    var x, y := Bezout(a, b);
    DividesCombination(d, a, b, x, y);
  }

  /** The Euclid loop of `stress_cpu_gcd`. */
  method Euclid(x: nat, y: nat) returns (a: nat)
    ensures a == Gcd(x, y)
    ensures x + y > 0 ==> Divides(a, x) && Divides(a, y)
    ensures x + y > 0 ==> forall d: nat | Divides(d, x) && Divides(d, y) :: Divides(d, a)
  {
    a := x;
    var b: nat := y;
    while b != 0
      invariant Gcd(a, b) == Gcd(x, y)
      decreases b
    {
      var r := b;
      b := a % b;
      a := r;
    }
    if x + y > 0 {
      GcdDivides(x, y);
      forall d: nat | Divides(d, x) && Divides(d, y) ensures Divides(d, a) { GcdGreatest(x, y, d); }
    }
  }

  /** The position reached after `t` strides of `p` from `s`. */
  function Visit(s: nat, p: nat, n: nat, t: nat): nat
    requires n > 0
  {
    (s + t * p) % n
  }

  /** How many of the first `m` positions are `k`. */
  function Hits(s: nat, p: nat, n: nat, k: nat, m: nat): nat
    requires n > 0
  {
    if m == 0 then 0 else Hits(s, p, n, k, m - 1) + (if Visit(s, p, n, m - 1) == k then 1 else 0)
  }

  lemma SameResidue(m: nat, a: int, b: int)
    requires m > 0
    ensures Divides(m, a - b) <==> a % m == b % m
  {
    var qa, qb, ra, rb := a / m, b / m, a % m, b % m;
    assert a == m * qa + ra && b == m * qb + rb;
    if Divides(m, a - b) {
      var q := (a - b) / m;
      assert a - b == m * q;
      assert a == m * (qb + q) + rb;
      ModUnique(a, m, qb + q, rb);
    }
    if ra == rb {
      assert a - b == m * (qa - qb);
      DividesIff(m, a - b, qa - qb);
    }
  }

  lemma CancelFactor(g: nat, m: nat, a: int)
    requires g > 0 && m > 0
    ensures Divides(g * m, g * a) <==> Divides(m, a)
  {
    if Divides(m, a) {
      DividesIff(m, a, 0);
      assert g * a == (g * m) * (a / m);
      DividesIff(g * m, g * a, a / m);
    }
    if Divides(g * m, g * a) {
      var q := (g * a) / (g * m);
      assert g * a == (g * m) * q == g * (m * q);
      assert g * (a - m * q) == 0;
      MulAtLeast(g, a - m * q);
      MulAtLeast(g, m * q - a);
      DividesIff(m, a, q);
    }
  }

  /** `t p' == c` modulo `m` has, for `p' x + m y == 1`, the one solution `t == x c` modulo `m`. */
  lemma Invert(p': int, m: nat, x: int, y: int, c: int, t: int)
    requires m > 0 && p' * x + m * y == 1
    ensures Divides(m, t * p' - c) <==> Divides(m, t - x * c)
  {
    hide Divides;
    DividesIff(m, m, 1);
    InvertAlgebra(p', m, x, y, c, t);
    var a, b := t * p' - c, t - x * c;
    var u, v := t * y, -(c * y);
    if Divides(m, a) { DividesCombination(m, a, m, x, u); }
    if Divides(m, b) { DividesCombination(m, b, m, p', v); }
  }

  lemma InvertAlgebra(p': int, m: int, x: int, y: int, c: int, t: int)
    requires p' * x + m * y == 1
    ensures (t * p' - c) * x + m * (t * y) == t - x * c
    ensures (t - x * c) * p' + m * (-(c * y)) == t * p' - c
  {
    assert t * (p' * x + m * y) == t;
    assert c * (p' * x + m * y) == c;
  }

  /** The strides that reach `k` are those of one residue class modulo `n / g`, or none. */
  lemma VisitClass(s: nat, p: nat, n: nat, k: nat) returns (r: nat)
    requires k < n && Divides(Gcd(p, n), k - s)
    ensures Divides(Gcd(p, n), n) && n / Gcd(p, n) > 0 && r < n / Gcd(p, n)
    ensures forall t: nat :: Visit(s, p, n, t) == k <==> t % (n / Gcd(p, n)) == r
  {
    var g := Gcd(p, n);
    GcdDivides(p, n);
    DividesIff(g, n, 0); DividesIff(g, p, 0); DividesIff(g, k - s, 0);
    var m, p', c := n / g, p / g, (k - s) / g;
    var x, y := Bezout(p, n);
    Normalised(g, p', m, x, y);
    r := (x * c) % m;
    forall t: nat ensures Visit(s, p, n, t) == k <==> t % m == r { VisitOne(s, g, p', m, k, c, x, y, t); }
  }

  lemma VisitOne(s: nat, g: nat, p': nat, m: nat, k: nat, c: int, x: int, y: int, t: nat)
    requires g > 0 && m > 0 && k < g * m && k - s == g * c && p' * x + m * y == 1
    ensures Visit(s, g * p', g * m, t) == k <==> t % m == (x * c) % m
  {
    SameResidue(g * m, s + t * (g * p'), k);
    ModUnique(k, g * m, 0, k);
    assert s + t * (g * p') - k == g * (t * p' - c) by { Factor(g, p', c, t, -1); }
    CancelFactor(g, m, t * p' - c);
    Invert(p', m, x, y, c, t);
    SameResidue(m, t, x * c);
  }

  lemma Normalised(g: nat, p': nat, m: nat, x: int, y: int)
    requires g > 0 && (g * p') * x + (g * m) * y == g && g * m > 0
    ensures p' * x + m * y == 1 && m > 0
  {
    Factor(g, p', m, x, y);
    var e := p' * x + m * y - 1;
    assert g * e == 0;
    MulAtLeast(g, e);
    MulAtLeast(g, -e);
  }

  /** How many of `0..e-1` are `r` modulo `m`. */
  ghost function InClass(m: nat, r: nat, e: nat): nat
    requires m > 0
  {
    if e == 0 then 0 else InClass(m, r, e - 1) + (if (e - 1) % m == r then 1 else 0)
  }

  lemma {:induction false} InClassCount(m: nat, r: nat, a: nat, j: nat)
    requires r < m && j <= m
    ensures InClass(m, r, m * a + j) == a + (if j > r then 1 else 0)
    decreases a, j
  {
    if j > 0 {
      InClassCount(m, r, a, j - 1);
      ModUnique(m * a + (j - 1), m, a, j - 1);
    } else if a > 0 {
      InClassCount(m, r, a - 1, m);
      assert m * a == m * (a - 1) + m;
    }
  }

  lemma {:induction false} HitsInClass(s: nat, p: nat, n: nat, k: nat, m: nat, r: nat, e: nat)
    requires n > 0 && m > 0 && forall t: nat :: Visit(s, p, n, t) == k <==> t % m == r
    ensures Hits(s, p, n, k, e) == InClass(m, r, e)
  {
    if e > 0 {
      HitsInClass(s, p, n, k, m, r, e - 1);
      assert Visit(s, p, n, e - 1) == k <==> (e - 1) % m == r;
    }
  }

  lemma NotReached(s: nat, p: nat, n: nat, k: nat, t: nat, g: nat)
    requires n > 0 && Divides(g, p) && Divides(g, n) && Divides(n, s + t * p - k)
    ensures Divides(g, k - s)
  {
    hide Divides;
    DividesIff(n, s + t * p - k, 0);
    var q := (s + t * p - k) / n;
    var q' := -q;
    assert k - s == p * t + n * q' by { assert n * q' == -(n * q); }
    DividesCombination(g, p, n, t, q');
  }

  lemma {:induction false} HitsNone(s: nat, p: nat, n: nat, k: nat, e: nat)
    requires k < n && !Divides(Gcd(p, n), k - s)
    ensures Hits(s, p, n, k, e) == 0
  {
    if e > 0 {
      HitsNone(s, p, n, k, e - 1);
      var g, t := Gcd(p, n), e - 1;
      GcdDivides(p, n);
      if Visit(s, p, n, t) == k {
        SameResidue(n, s + t * p, k);
        ModUnique(k, n, 0, k);
        NotReached(s, p, n, k, t, g);
      }
    }
  }

  /**
    `n` strides reach exactly the positions congruent to the start modulo the greatest common
    divisor of stride and size, and each of them that many times.
   */
  lemma StrideCoverage(s: nat, p: nat, n: nat, k: nat)
    requires k < n
    ensures Hits(s, p, n, k, n) == if Divides(Gcd(p, n), k - s) then Gcd(p, n) else 0
  {
    var g := Gcd(p, n);
    if Divides(g, k - s) {
      var r := VisitClass(s, p, n, k);
      var m := n / g;
      DividesIff(g, n, 0);
      HitsInClass(s, p, n, k, m, r, n);
      assert n == m * g;
      InClassCount(m, r, g, 0);
    } else {
      HitsNone(s, p, n, k, n);
    }
  }

  /** Some stride reaches `k` exactly when the hit count is positive. */
  lemma {:induction false} HitsPositive(s: nat, p: nat, n: nat, k: nat, e: nat)
    requires n > 0
    ensures Hits(s, p, n, k, e) > 0 <==> exists t: nat :: t < e && Visit(s, p, n, t) == k
  {
    if e > 0 {
      HitsPositive(s, p, n, k, e - 1);
      if Visit(s, p, n, e - 1) == k { assert e - 1 < e && Visit(s, p, n, e - 1) == k; }
    }
  }
}
