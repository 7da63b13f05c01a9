/** The 6k+-1 primality test and the stateful search for a stride prime. */
module Primes {
  import opened Basics
  import opened Bits
  import opened Stride

  ghost predicate IsPrime(n: nat) {
    2 <= n && forall d: nat | 2 <= d < n :: !Divides(d, n)
  }

  /** `sqrt(n)` converted to an integer. */
  function ISqrt(n: nat): nat {
    if n == 0 then 0
    else
      var s := ISqrt(n - 1);
      if (s + 1) * (s + 1) <= n then s + 1 else s
  }

  lemma {:induction false} ISqrtSpec(n: nat)
    ensures ISqrt(n) * ISqrt(n) <= n < (ISqrt(n) + 1) * (ISqrt(n) + 1)
  {
    if n > 0 {
      ISqrtSpec(n - 1);
      var s := ISqrt(n - 1);
      assert (s + 2) * (s + 2) > (s + 1) * (s + 1);
    }
  }

  lemma DivisorPair(d: nat, n: nat) returns (e: nat)
    requires 2 <= d < n && Divides(d, n)
    ensures n == d * e && 2 <= e < n && Divides(e, n)
  {
    e := n / d;
    DividesIff(d, n, 0);
    MulGrows(d, e);
    DividesIff(e, n, d);
  }

  lemma MulGrows(d: nat, e: nat)
    ensures e < 2 ==> d * e <= d
    ensures d >= 2 && e >= 1 ==> d * e > e
  {
    if d >= 2 { assert d * e == e + e + (d - 2) * e; }
  }

  lemma DividesTrans(a: nat, d: nat, n: nat)
    requires Divides(a, d) && Divides(d, n)
    ensures Divides(a, n)
  {
    DividesCombination(a, d, 0, n / d, 0);
    DividesIff(d, n, 0);
  }

  /** A number without a divisor up to its square root is prime. */
  lemma PrimeBySqrt(n: nat)
    requires 2 <= n && forall d: nat | 2 <= d <= ISqrt(n) :: !Divides(d, n)
    ensures IsPrime(n)
  {
    var s := ISqrt(n);
    ISqrtSpec(n);
    forall d: nat | 2 <= d < n ensures !Divides(d, n) {
      if Divides(d, n) {
        var e := DivisorPair(d, n);
        if s < d && s < e { MulMono(s + 1, s + 1, d, e); }
      }
    }
  }

  /** What the 6k+-1 loop has not looked at below `i` is a multiple of 2 or 3. */
  lemma SixSteps(n: nat, i: nat, d: nat)
    requires i % 6 == 5 && !Divides(2, n) && !Divides(3, n)
    requires forall c: nat | 2 <= c < i :: !Divides(c, n)
    requires !Divides(i, n) && !Divides(i + 2, n) && 2 <= d < i + 6
    ensures !Divides(d, n)
  {
    hide Divides;
    if Divides(d, n) && d >= i {
      ModSix(i, d);
      if Divides(2, d) { DividesTrans(2, d, n); }
      if Divides(3, d) { DividesTrans(3, d, n); }
    }
  }

  lemma ModSix(i: nat, d: nat)
    requires i % 6 == 5 && i <= d < i + 6
    ensures Divides(2, d) || Divides(3, d) || d == i || d == i + 2
  {
    hide Divides;
    var q := i / 6;
    if d == i + 1 { DividesIff(2, d, 3 * q + 3); }
    if d == i + 3 { DividesIff(2, d, 3 * q + 4); }
    if d == i + 4 { DividesIff(3, d, 2 * q + 3); }
    if d == i + 5 { DividesIff(2, d, 3 * q + 5); }
  }

  lemma DividesMod(d: nat, n: nat)
    requires d > 0
    ensures Divides(d, n) <==> n % d == 0
  {}

  lemma SmallCases(n: nat)
    ensures n <= 3 ==> (IsPrime(n) <==> n >= 2)
    ensures n > 3 && (n % 2 == 0 || n % 3 == 0) ==> !IsPrime(n)
    ensures n % 2 != 0 && n % 3 != 0 ==> forall d: nat | 2 <= d < 5 :: !Divides(d, n)
  {
    assert !Divides(2, 3);
    assert n % 2 == 0 ==> Divides(2, n);
    assert n % 3 == 0 ==> Divides(3, n);
    if Divides(4, n) { DividesTrans(2, 4, n); }
  }

  lemma Found(n: nat, i: nat)
    requires 5 <= i <= ISqrt(n) && (Divides(i, n) || Divides(i + 2, n))
    ensures !IsPrime(n)
  {
    ISqrtSpec(n);
    MulMono(i, i, ISqrt(n), ISqrt(n));
    MulMono(5, i, i, i);
  }

  lemma NextSix(n: nat, i: nat)
    requires i % 6 == 5 && n % 2 != 0 && n % 3 != 0
    requires forall c: nat | 2 <= c < i :: !Divides(c, n)
    requires !Divides(i, n) && !Divides(i + 2, n)
    ensures forall d: nat | 2 <= d < i + 6 :: !Divides(d, n)
  {
    forall d: nat | 2 <= d < i + 6 ensures !Divides(d, n) { SixSteps(n, i, d); }
  }

  /** `is_prime` and `stress_is_prime64` answer true exactly on the primes. */
  method TrialDivision(n: nat) returns (prime: bool)
    ensures prime <==> IsPrime(n)
  {
    hide Divides, ISqrt, IsPrime;
    SmallCases(n);
    if n <= 3 { return n >= 2; }
    if n % 2 == 0 || n % 3 == 0 { return false; }
    var max := ISqrt(n) + 1;
    var i := 5;
    while i < max
      invariant 5 <= i && i % 6 == 5
      invariant forall d: nat | 2 <= d < i :: !Divides(d, n)
      decreases max - i
    {
      DividesMod(i, n);
      DividesMod(i + 2, n);
      if n % i == 0 || n % (i + 2) == 0 {
        Found(n, i);
        return false;
      }
      NextSix(n, i);
      i := i + 6;
    }
    PrimeBySqrt(n);
    return true;
  }

  lemma PrimeDivisor(p: nat, g: nat)
    requires IsPrime(p) && Divides(g, p)
    ensures g == 1 || g == p
  {
    DividesIff(g, p, 0);
    MulGrows(g, p / g);
    MulAtLeast(g, p / g);
  }

  /** A prime shares a factor with `n` only by dividing it. */
  lemma PrimeGcd(p: nat, n: nat)
    requires IsPrime(p)
    ensures Gcd(p, n) == if Divides(p, n) then p else 1
  {
    hide Gcd;
    var g := Gcd(p, n);
    GcdDivides(p, n);
    PrimeDivisor(p, g);
    if Divides(p, n) {
      DividesIff(p, p, 1);
      GcdGreatest(p, n, p);
      assert !Divides(p, 1);
    }
  }

  lemma EvenNotPrime(q: nat)
    requires q % 2 == 0 && q > 2
    ensures !IsPrime(q)
  {
    assert Divides(2, q);
  }

  lemma Prime3And5()
    ensures IsPrime(3) && IsPrime(5)
  {
    assert !Divides(2, 3);
    assert !Divides(2, 5) && !Divides(3, 5) && !Divides(4, 5);
  }

  predicate NoDivisorUpTo(n: nat, k: nat) {
    k < 2 || (n % k != 0 && NoDivisorUpTo(n, k - 1))
  }

  lemma {:induction false} NoDivisorMeans(n: nat, k: nat, d: nat)
    requires NoDivisorUpTo(n, k) && 2 <= d <= k
    ensures !Divides(d, n)
  {
    if d < k { NoDivisorMeans(n, k - 1, d); }
  }

  lemma Prime1009()
    ensures IsPrime(1009)
  {
    assert NoDivisorUpTo(1009, 11);
    assert NoDivisorUpTo(1009, 21);
    assert NoDivisorUpTo(1009, 31);
    ISqrtSpec(1009);
    var s := ISqrt(1009);
    if s > 31 { MulMono(32, 32, s, s); }
    forall d: nat | 2 <= d <= s ensures !Divides(d, 1009) { NoDivisorMeans(1009, 31, d); }
    PrimeBySqrt(1009);
  }

  /** One past the largest value of the 32-bit `static uint p`. */
  const UINT_RANGE: nat := 0x1_0000_0000

  ghost predicate NoPrimeBetween(a: nat, b: nat) {
    forall q: nat | a < q < b :: !IsPrime(q)
  }

  class StridePrime {
    var p: nat

    ghost predicate Valid()
      reads this
    {
      p < UINT_RANGE && p % 2 == 1 && IsPrime(p)
    }

    constructor ()
      ensures Valid() && p == 1009
    {
      p := 1009;
      new;
      Prime1009();
    }

    /**
      `stress_get_prime64`. The remembered prime is kept unless it equals `n`; then the search
      ends on the next larger prime that fits 32 bits or, when there is none, wraps round to 3.
     */
    method Get(n: nat) returns (r: nat)
      requires Valid()
      modifies this
      ensures Valid() && r == p && r != n
      ensures n != old(p) ==> p == old(p)
      ensures n == old(p) ==> !Divides(r, n)
      ensures n == old(p) ==> if n < r then NoPrimeBetween(n, r) else r == 3 && NoPrimeBetween(n, UINT_RANGE)
    {
      if n != p { return p; }
      AtLeastTwo(n);
      hide IsPrime, Divides, NoPrimeBetween;
      NothingBetween(n);
      while true
        invariant p < UINT_RANGE && p % 2 == 1
        invariant (n <= p && NoPrimeBetween(n, p + 1)) || (p == 1 && NoPrimeBetween(n, UINT_RANGE))
        decreases if n <= p then UINT_RANGE - p + 5 else 4 - p
      {
        ghost var p0 := p;
        p := (p + 2) % UINT_RANGE;
        Advanced(n, p0, p);
        DividesMod(p, n);
        if n % p != 0 {
          var prime := TrialDivision(p);
          if prime { return p; }
        }
      }
    }
  }

  lemma NothingBetween(n: nat)
    ensures NoPrimeBetween(n, n + 1)
  {}

  lemma NextOdd(p0: nat)
    requires p0 < UINT_RANGE && p0 % 2 == 1
    ensures (p0 + 2) % UINT_RANGE == if p0 == UINT_RANGE - 1 then 1 else p0 + 2
  {}

  lemma ThreeDivides(n: nat)
    requires IsPrime(n) && Divides(3, n)
    ensures n == 3
  {
    PrimeDivisor(n, 3);
  }

  lemma NoPrimeExtend(n: nat, p: nat)
    ensures NoPrimeBetween(n, p) && !IsPrime(p) ==> NoPrimeBetween(n, p + 1)
  {}

  /** What one step of the search knows about its new candidate. */
  lemma Advanced(n: nat, p0: nat, p: nat)
    requires IsPrime(n) && n % 2 == 1 && p0 < UINT_RANGE && p0 % 2 == 1 && p == (p0 + 2) % UINT_RANGE
    requires (n <= p0 && NoPrimeBetween(n, p0 + 1)) || (p0 == 1 && NoPrimeBetween(n, UINT_RANGE))
    ensures p % 2 == 1 && p > 0 && p != n && p < UINT_RANGE
    ensures if n < p
            then p == p0 + 2 && n % p != 0 && NoPrimeBetween(n, p) && (!IsPrime(p) ==> NoPrimeBetween(n, p + 1))
            else NoPrimeBetween(n, UINT_RANGE) && (p == 1 || (p == 3 && p0 == 1 && n % 3 != 0 && IsPrime(3)))
  {
    Prime3And5();
    NextOdd(p0);
    AtLeastTwo(n);
    if n <= p0 && p0 + 2 < UINT_RANGE {
      EvenNotPrime(p0 + 1);
      hide IsPrime;
      NoPrimeExtend(n, p0 + 1);
      NoPrimeExtend(n, p);
      ModUnique(n, p, 0, n);
    } else if n > p0 {
      if Divides(3, n) { ThreeDivides(n); }
    }
  }

  lemma AtLeastTwo(n: nat)
    requires IsPrime(n)
    ensures n >= 2
  {}
}
