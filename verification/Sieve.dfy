/** The sieve of Eratosthenes of the CPU stressor, in a bit array of 32-bit words. */
module Sieve {
  import opened Basics
  import opened Bits
  import opened Stride
  import opened Primes

  /** `k` is a multiple, from its square on, of a prime below `s`. */
  ghost predicate Crossed(s: nat, k: nat) {
    exists d: nat :: Crosses(d, k) && d < s
  }

  ghost predicate Crosses(d: nat, k: nat) {
    IsPrime(d) && d * d <= k && Divides(d, k)
  }

  lemma {:induction false} LeastDivisor(k: nat, d: nat) returns (q: nat)
    requires 2 <= d <= k && forall e: nat | 2 <= e < d :: !Divides(e, k)
    ensures d <= q <= k && Divides(q, k) && forall e: nat | 2 <= e < q :: !Divides(e, k)
    decreases k - d
  {
    if d == k {
      DividesIff(k, k, 1);
      q := k;
    } else if Divides(d, k) {
      q := d;
    } else {
      q := LeastDivisor(k, d + 1);
    }
  }

  /** A composite number is crossed by its smallest factor. */
  lemma SmallestFactor(k: nat) returns (q: nat)
    requires k >= 2 && !IsPrime(k)
    ensures Crosses(q, k)
  {
    q := LeastDivisor(k, 2);
    forall e: nat | 2 <= e < q ensures !Divides(e, q) {
      if Divides(e, q) { DividesTrans(e, q, k); }
    }
    var e := DivisorPair(q, k);
    MulMono(q, q, q, e);
  }

  lemma PrimeNotCrossed(k: nat, s: nat)
    requires IsPrime(k)
    ensures !Crossed(s, k)
  {
    if Crossed(s, k) {
      var d: nat :| Crosses(d, k) && d < s;
      AtLeastTwo(d);
      MulGrows(d, d);
    }
  }

  /** When the outer loop reaches `i`, its bit tells whether `i` is prime. */
  lemma BitMeansPrime(i: nat)
    requires i >= 2
    ensures Crossed(i, i) <==> !IsPrime(i)
  {
    if IsPrime(i) {
      PrimeNotCrossed(i, i);
    } else {
      var q := SmallestFactor(i);
      AtLeastTwo(q);
      MulGrows(q, q);
    }
  }

  lemma CrossedStep(i: nat, k: nat)
    ensures Crossed(i + 1, k) <==> Crossed(i, k) || Crosses(i, k)
  {
    if Crossed(i, k) {
      var d: nat :| Crosses(d, k) && d < i;
      assert d < i + 1;
    }
    if Crosses(i, k) { assert i < i + 1; }
  }

  /** A prime that divides a product divides a factor (here of a square). */
  lemma PrimeDividesSquare(d: nat, s: nat)
    requires IsPrime(d) && Divides(d, s * s)
    ensures Divides(d, s)
  {
    if !Divides(d, s) {
      PrimeGcd(d, s);
      var x, y := Bezout(d, s);
      assert s == d * (x * s) + (s * s) * y by {
        assert s * (d * x + s * y) == s;
        SquareAlgebra(d, s, x, y);
      }
      DividesIff(d, d, 1);
      DividesCombination(d, d, s * s, x * s, y);
    }
  }

  lemma SquareAlgebra(d: int, s: int, x: int, y: int)
    ensures s * (d * x + s * y) == d * (x * s) + (s * s) * y
  {}

  /** The code stops one short of the square root, so a prime root leaves its own square behind. */
  ghost predicate RootMissed(n: nat) {
    IsPrime(ISqrt(n)) && ISqrt(n) * ISqrt(n) < n
  }

  lemma OnlySquareOfRootSurvives(n: nat, k: nat)
    requires 2 <= k < n && !IsPrime(k) && !Crossed(ISqrt(n), k)
    ensures RootMissed(n)
  {
    var s := ISqrt(n);
    ISqrtSpec(n);
    var q := SmallestFactor(k);
    if q > s { MulMono(s + 1, s + 1, q, q); }
    assert q == s;
  }

  lemma SquareOfRootSurvives(n: nat)
    requires RootMissed(n)
    ensures var k := ISqrt(n) * ISqrt(n); 2 <= k < n && !IsPrime(k) && !Crossed(ISqrt(n), k)
  {
    var s := ISqrt(n);
    AtLeastTwo(s);
    MulGrows(s, s);
    DividesIff(s, s * s, s);
    if Crossed(s, s * s) {
      var d: nat :| Crosses(d, s * s) && d < s;
      PrimeDividesSquare(d, s);
      PrimeDivisor(s, d);
      AtLeastTwo(d);
    }
  }

  ghost predicate SieveExact(n: nat) {
    forall k: nat | 2 <= k < n :: Crossed(ISqrt(n), k) <==> !IsPrime(k)
  }

  /**
    The sieve leaves exactly the primes set if and only if the integer square root of its size
    is not prime or its square is the size itself.
   */
  lemma SieveExactIff(n: nat)
    ensures SieveExact(n) <==> !RootMissed(n)
  {
    if RootMissed(n) { SquareOfRootSurvives(n); }
    if !RootMissed(n) {
      forall k: nat | 2 <= k < n ensures Crossed(ISqrt(n), k) <==> !IsPrime(k) {
        if IsPrime(k) { PrimeNotCrossed(k, ISqrt(n)); }
        else if !Crossed(ISqrt(n), k) { OnlySquareOfRootSurvives(n, k); }
      }
    }
  }

  lemma RootIs(n: nat, s: nat)
    requires s * s <= n < (s + 1) * (s + 1)
    ensures ISqrt(n) == s
  {
    ISqrtSpec(n);
    var r := ISqrt(n);
    if r < s { MulMono(r + 1, r + 1, s, s); }
    if r > s { MulMono(s + 1, s + 1, r, r); }
  }

  /** The size the program uses is one of the exact ones; at 10 the sieve would take 9 for a prime. */
  lemma SieveSizes()
    ensures !RootMissed(10_000_000) && RootMissed(10)
  {
    hide ISqrt, IsPrime;
    RootIs(10_000_000, 3162);
    RootIs(10, 3);
    SmallCases(3162);
    SmallCases(3);
  }

  /** Bit `k` of the array: `STRESS_GETBIT`. */
  ghost predicate BitAt(words: seq<nat>, k: nat) {
    k / 32 < |words| && Has(words[k / 32], k % 32)
  }

  lemma Cleared(words: seq<nat>, words': seq<nat>, j: nat, k: nat)
    requires j / 32 < |words| && Pow2(j % 32) < Pow2(W)
    requires words' == words[j / 32 := And(words[j / 32], Not(Pow2(j % 32), W))]
    ensures BitAt(words', k) <==> BitAt(words, k) && k != j
  {
    if k / 32 == j / 32 { ClearBit(words[j / 32], j % 32, k % 32); }
  }

  lemma NextMultiple(i: nat, j: nat, k: nat)
    requires i > 0 && Divides(i, j)
    ensures Divides(i, j + i)
    ensures j <= k < j + i && Divides(i, k) ==> k == j
  {
    DividesIff(i, i, 1);
    DividesCombination(i, j, i, 1, 1);
    if j <= k < j + i && Divides(i, k) {
      DividesCombination(i, k, j, 1, -1);
      ModUnique(k - j, i, 0, k - j);
    }
  }

  /** The inner loop's effect: from `first` on every `i`th bit is cleared. */
  ghost predicate ClearedFrom(before: seq<nat>, after: seq<nat>, n: nat, i: nat, first: nat, end: nat)
    requires i > 0
  {
    forall k: nat | k < n :: BitAt(after, k) <==> BitAt(before, k) && !(first <= k < end && Divides(i, k - first))
  }

  /**
    The inner loop, for every 32-bit `i`: it starts at the wrapped square of `i`, which up to 65535
    is the square, so that exactly the multiples of `i` from there on are cleared.
   */
  method CrossOff(sieve: array<nat>, n: nat, i: nat)
    requires sieve.Length == (n + 31) / 32 && i > 0 && n <= 0x8000_0000 && i <= n
    modifies sieve
    ensures ClearedFrom(old(sieve[..]), sieve[..], n, i, Word32(i * i), n)
    ensures i <= 0xffff ==> forall k: nat | k < n ::
      BitAt(sieve[..], k) <==> BitAt(old(sieve[..]), k) && !(i * i <= k && Divides(i, k))
  {
    hide Divides, BitAt, And, Not, Pow2, Word32, ClearedFrom;
    var first := Word32(i * i);
    var j := first;
    ClearedNone(sieve[..], n, i, first);
    while j < n
      invariant first <= j && Divides(i, j - first)
      invariant ClearedFrom(old(sieve[..]), sieve[..], n, i, first, j)
      decreases n - j
    {
      assert j + i < 0x1_0000_0000;
      ghost var words := sieve[..];
      Pow2Less(j % 32, W);
      sieve[j / 32] := And(sieve[j / 32], Not(Pow2(j % 32), W));
      assert sieve[..] == words[j / 32 := And(words[j / 32], Not(Pow2(j % 32), W))];
      ClearedStep(old(sieve[..]), words, sieve[..], n, i, first, j);
      j := j + i;
    }
    ClearedAll(old(sieve[..]), sieve[..], n, i, first, j);
  }

  lemma ClearedNone(words: seq<nat>, n: nat, i: nat, first: nat)
    requires i > 0
    ensures ClearedFrom(words, words, n, i, first, first) && Divides(i, first - first)
  {}

  lemma ClearedStep(before: seq<nat>, words: seq<nat>, after: seq<nat>, n: nat, i: nat, first: nat, j: nat)
    requires i > 0 && first <= j && Divides(i, j - first) && ClearedFrom(before, words, n, i, first, j)
    requires j < n && |words| == (n + 31) / 32 && Pow2(j % 32) < Pow2(W)
    requires after == words[j / 32 := And(words[j / 32], Not(Pow2(j % 32), W))]
    ensures ClearedFrom(before, after, n, i, first, j + i) && Divides(i, j + i - first)
  {
    hide Divides, BitAt, And, Not, Pow2;
    forall k: nat | k < n
      ensures BitAt(after, k) <==> BitAt(before, k) && !(first <= k < j + i && Divides(i, k - first))
    {
      Cleared(words, after, j, k);
      if first <= k { NextMultiple(i, j - first, k - first); }
    }
    NextMultiple(i, j - first, j - first);
  }

  lemma ClearedAll(before: seq<nat>, after: seq<nat>, n: nat, i: nat, first: nat, j: nat)
    requires i > 0 && n <= j && ClearedFrom(before, after, n, i, first, j) && first == Word32(i * i)
    ensures ClearedFrom(before, after, n, i, first, n)
    ensures i <= 0xffff ==> forall k: nat | k < n ::
      BitAt(after, k) <==> BitAt(before, k) && !(i * i <= k && Divides(i, k))
  {
    hide Divides, BitAt, Word32;
    if i <= 0xffff {
      SquareFits(i);
      forall k: nat | k < n && i * i <= k ensures Divides(i, k - i * i) <==> Divides(i, k) {
        SquareOff(i, k);
      }
    }
  }

  lemma SquareFits(i: nat)
    requires i <= 0xffff
    ensures Word32(i * i) == i * i
  {
    hide Word32;
    MulMono(i, i, 0xffff, 0xffff);
    Word32Small(i * i);
  }

  lemma SquareOff(i: nat, k: nat)
    requires i > 0
    ensures Divides(i, k - i * i) <==> Divides(i, k)
  {
    hide Divides;
    DividesIff(i, i * i, i);
    if Divides(i, k) { DividesCombination(i, k, i * i, 1, -1); }
    if Divides(i, k - i * i) { DividesCombination(i, k - i * i, i * i, 1, 1); }
  }

  /** The bits left after the primes below `i` have crossed off their multiples. */
  ghost predicate Sifted(words: seq<nat>, n: nat, i: nat) {
    forall k: nat | 2 <= k < n :: BitAt(words, k) <==> !Crossed(i, k)
  }

  /** Survivors of the sieve among `2..n-1`. */
  ghost function Survivors(s: nat, n: nat): nat {
    if n <= 2 then 0 else Survivors(s, n - 1) + (if Crossed(s, n - 1) then 0 else 1)
  }

  /** The number of primes below `n`. */
  ghost function PrimeCount(n: nat): nat {
    if n <= 2 then 0 else PrimeCount(n - 1) + (if IsPrime(n - 1) then 1 else 0)
  }

  lemma {:induction false} SurvivorsVersusPrimes(s: nat, n: nat)
    ensures Survivors(s, n) >= PrimeCount(n)
    ensures Survivors(s, n) == PrimeCount(n) <==> forall k: nat | 2 <= k < n :: Crossed(s, k) <==> !IsPrime(k)
  {
    if n > 2 {
      SurvivorsVersusPrimes(s, n - 1);
      if IsPrime(n - 1) { PrimeNotCrossed(n - 1, s); }
    }
  }

  /** One turn of the outer loop. */
  lemma SiftStep(before: seq<nat>, after: seq<nat>, n: nat, i: nat)
    requires 2 <= i && Sifted(before, n, i)
    requires if IsPrime(i)
             then forall k: nat | k < n :: BitAt(after, k) <==> BitAt(before, k) && !(i * i <= k && Divides(i, k))
             else after == before
    ensures Sifted(after, n, i + 1)
  {
    forall k: nat | 2 <= k < n ensures BitAt(after, k) <==> !Crossed(i + 1, k) { CrossedStep(i, k); }
  }

  /**
    `stress_cpu_sieve` for any size: the set bits and their count are those of the survivors,
    which are the primes exactly when the root of the size is not missed.
   */
  method CountPrimes(n: nat) returns (sieve: array<nat>, count: nat)
    requires n <= 0x8000_0000
    ensures forall k: nat | 2 <= k < n :: BitAt(sieve[..], k) <==> !Crossed(ISqrt(n), k)
    ensures count >= PrimeCount(n)
    ensures count == PrimeCount(n) <==> !RootMissed(n)
  {
    hide Crossed, Divides, IsPrime, ISqrt, BitAt, And, Pow2, Has, Survivors, PrimeCount, RootMissed, SieveExact;
    hide Sifted, ClearedFrom, Word32;
    var nsqrt := ISqrt(n);
    RootBelow(n);
    sieve := new nat[(n + 31) / 32];
    var w := 0;
    while w < sieve.Length
      invariant 0 <= w <= sieve.Length && forall v | 0 <= v < w :: sieve[v] == Pow2(W) - 1
    {
      sieve[w] := Pow2(W) - 1;
      w := w + 1;
    }
    AllSet(sieve[..], n);
    var i := 2;
    while i < nsqrt
      invariant 2 <= i && (i <= nsqrt || i == 2) && Sifted(sieve[..], n, i)
    {
      ghost var before := sieve[..];
      BitMeansPrime(i);
      SiftedAt(before, n, i, i);
      if And(sieve[i / 32], Pow2(i % 32)) != 0 { CrossOff(sieve, n, i); }
      SiftStep(before, sieve[..], n, i);
      i := i + 1;
    }
    FinalMarks(sieve[..], n, i);
    count := 0;
    SmallCount(nsqrt, 2);
    i := 2;
    while i < n
      invariant 2 <= i && (i <= n || i == 2) && count == Survivors(nsqrt, i)
      invariant Sifted(sieve[..], n, nsqrt)
    {
      CountStep(sieve[..], n, nsqrt, i);
      if And(sieve[i / 32], Pow2(i % 32)) != 0 { count := count + 1; }
      i := i + 1;
    }
    if n < 2 { SmallCount(nsqrt, n); }
    Result(sieve[..], n);
  }

  lemma SiftedAt(words: seq<nat>, n: nat, i: nat, k: nat)
    requires 2 <= k < n && |words| == (n + 31) / 32 && Sifted(words, n, i)
    ensures And(words[k / 32], Pow2(k % 32)) != 0 <==> !Crossed(i, k)
  {
    TestBitAt(words, k);
  }

  lemma Result(words: seq<nat>, n: nat)
    requires Sifted(words, n, ISqrt(n))
    ensures forall k: nat | 2 <= k < n :: BitAt(words, k) <==> !Crossed(ISqrt(n), k)
    ensures Survivors(ISqrt(n), n) >= PrimeCount(n)
    ensures Survivors(ISqrt(n), n) == PrimeCount(n) <==> !RootMissed(n)
  {
    SurvivorsVersusPrimes(ISqrt(n), n);
    SieveExactIff(n);
  }

  lemma RootBelow(n: nat)
    ensures ISqrt(n) <= n && (n <= 0x8000_0000 ==> ISqrt(n) <= 0xffff)
  {
    ISqrtSpec(n);
    MulGrows(ISqrt(n), ISqrt(n));
    if ISqrt(n) > 0xffff { MulMono(0x10000, 0x10000, ISqrt(n), ISqrt(n)); }
  }

  lemma NoneBelowTwo(s: nat, k: nat)
    requires s <= 2
    ensures !Crossed(s, k)
  {
    forall d: nat | Crosses(d, k) ensures d >= 2 { AtLeastTwo(d); }
  }

  lemma CountStep(words: seq<nat>, n: nat, s: nat, i: nat)
    requires 2 <= i < n && |words| == (n + 31) / 32 && Sifted(words, n, s)
    ensures Survivors(s, i + 1) == Survivors(s, i) + (if And(words[i / 32], Pow2(i % 32)) != 0 then 1 else 0)
  {
    hide Crossed, And, Pow2;
    TestBitAt(words, i);
  }

  lemma AllSet(words: seq<nat>, n: nat)
    requires |words| == (n + 31) / 32 && forall v | 0 <= v < |words| :: words[v] == Pow2(W) - 1
    ensures Sifted(words, n, 2)
  {
    forall k: nat | 2 <= k < n ensures BitAt(words, k) && !Crossed(2, k) {
      HasAllOnes(W, k % 32);
      NoneBelowTwo(2, k);
    }
  }

  lemma TestBitAt(words: seq<nat>, k: nat)
    requires k / 32 < |words|
    ensures BitAt(words, k) <==> And(words[k / 32], Pow2(k % 32)) != 0
  {
    TestBit(words[k / 32], k % 32);
  }

  lemma FinalMarks(words: seq<nat>, n: nat, i: nat)
    requires Sifted(words, n, i) && (i == ISqrt(n) || (i == 2 && ISqrt(n) < 2))
    ensures Sifted(words, n, ISqrt(n))
  {
    var s := ISqrt(n);
    if s < 2 {
      forall k: nat | 2 <= k < n ensures !Crossed(s, k) && !Crossed(2, k) {
        NoneBelowTwo(s, k);
        NoneBelowTwo(2, k);
      }
    }
  }

  lemma SmallCount(s: nat, n: nat)
    requires n <= 2
    ensures Survivors(s, n) == 0 == Survivors(s, 2)
  {}

  /** `stress_cpu_prime`: counting below `n` by trial division. */
  method CountByTrialDivision(n: nat) returns (count: nat)
    ensures count == PrimeCount(n)
  {
    hide IsPrime;
    count := 0;
    var i := 0;
    while i < n
      invariant 0 <= i <= n && count == PrimeCount(i)
    {
      SmallCases(i);
      var prime := TrialDivision(i);
      if prime { count := count + 1; }
      i := i + 1;
    }
  }
}
