/** The dentry stressor: files named by Gray codes, created in order and removed in three orders. */
module Dentry {
  import opened Basics
  import opened Bits
  import opened Stride
  import opened Primes

  const ORDER_FORWARD: nat := 0
  const ORDER_REVERSE: nat := 1
  const ORDER_STRIDE: nat := 2
  const ORDER_RANDOM: nat := 3
  const MAX_DENTRIES: nat := 1000000

  /** The name of file `j`: its Gray code `(j >> 1) ^ j`. */
  function Gray(j: nat): nat {
    Xor(j / 2, j)
  }

  /** Different files have different names. */
  lemma {:induction false} GrayInjective(a: nat, b: nat)
    requires Gray(a) == Gray(b)
    ensures a == b
    decreases a + b
  {
    GrayHalves(a);
    GrayHalves(b);
    if a + b > 0 { GrayInjective(a / 2, b / 2); }
  }

  lemma GrayHalves(a: nat)
    ensures Gray(a) / 2 == Gray(a / 2)
    ensures Gray(a) % 2 == (if a / 2 % 2 != a % 2 then 1 else 0)
  {}

  /** Neighbours' names differ in exactly one bit. */
  lemma {:induction false} GrayNeighbours(k: nat) returns (b: nat)
    ensures Xor(Gray(k), Gray(k + 1)) == Pow2(b)
  {
    hide Gray;
    var x, y := Gray(k), Gray(k + 1);
    GrayHalves(k);
    GrayHalves(k + 1);
    XorHalf(x, y);
    if k % 2 == 0 {
      b := 0;
      XorSame(x / 2);
    } else {
      var c := GrayNeighbours(k / 2);
      b := c + 1;
      Pow2Step(c);
    }
  }

  lemma XorHalf(x: nat, y: nat)
    ensures Xor(x, y) == 2 * Xor(x / 2, y / 2) + if x % 2 != y % 2 then 1 else 0
  {}

  lemma {:induction false} XorSame(x: nat)
    ensures Xor(x, x) == 0
  {
    if x > 0 { XorSame(x / 2); }
  }

  /** The names of the first `n` files. */
  ghost function Names(n: nat): set<nat> {
    if n == 0 then {} else Names(n - 1) + {Gray(n - 1)}
  }

  lemma {:induction false} InNames(n: nat, k: nat)
    ensures Gray(k) in Names(n) <==> k < n
  {
    if n > 0 {
      InNames(n - 1, k);
      if Gray(k) == Gray(n - 1) { GrayInjective(k, n - 1); }
    }
  }

  lemma {:induction false} NamesAreGray(n: nat, f: nat) returns (k: nat)
    requires f in Names(n)
    ensures k < n && f == Gray(k)
  {
    if f == Gray(n - 1) { k := n - 1; } else { k := NamesAreGray(n - 1, f); }
  }

  /** The names met by `m` strides of `p` around `n` files. */
  ghost function Strided(p: nat, n: nat, m: nat): set<nat>
    requires n > 0
  {
    if m == 0 then {} else Strided(p, n, m - 1) + {Gray(Visit(p, p, n, m - 1))}
  }

  lemma {:induction false} InStrided(p: nat, n: nat, m: nat, k: nat)
    requires n > 0
    ensures Gray(k) in Strided(p, n, m) <==> Hits(p, p, n, k, m) > 0
  {
    if m > 0 {
      InStrided(p, n, m - 1, k);
      var v := Visit(p, p, n, m - 1);
      if Gray(k) == Gray(v) { GrayInjective(k, v); }
    }
  }

  lemma {:induction false} StridedWithin(p: nat, n: nat, m: nat)
    requires n > 0
    ensures Strided(p, n, m) <= Names(n)
  {
    if m > 0 {
      StridedWithin(p, n, m - 1);
      InNames(n, Visit(p, p, n, m - 1));
    }
  }

  /** A stride that starts from a multiple of the common divisor meets exactly its multiples. */
  lemma StrideMeets(p: nat, n: nat, k: nat)
    requires k < n && p > 0
    ensures Gray(k) in Strided(p, n, n) <==> Divides(Gcd(p, n), k)
  {
    var g := Gcd(p, n);
    InStrided(p, n, n, k);
    StrideCoverage(p, p, n, k);
    GcdDivides(p, n);
    SameResidue(g, k, p);
  }

  /** Removal in stride order removes every file if and only if the prime does not divide their number. */
  lemma StrideRemovesAll(p: nat, n: nat)
    requires IsPrime(p) && n > 0
    ensures Strided(p, n, n) == Names(n) <==> !Divides(p, n)
  {
    hide Strided, Names, Gcd, Gray, IsPrime;
    AtLeastTwo(p);
    PrimeGcd(p, n);
    StridedWithin(p, n, n);
    if Divides(p, n) {
      MultipleIsLarge(p, n);
      StrideMeets(p, n, 1);
      InNames(n, 1);
      assert !Divides(p, 1);
    } else {
      forall f | f in Names(n) ensures f in Strided(p, n, n) {
        var k := NamesAreGray(n, f);
        StrideMeets(p, n, k);
        assert Divides(1, k);
      }
    }
  }

  /** The first stride prime, 1009, leaves files behind when there are 2018 of them. */
  lemma LeavesFilesBehind()
    ensures Gray(1) in Names(2018) && Gray(1) !in Strided(1009, 2018, 2018)
  {
    Prime1009();
    assert Divides(1009, 2018);
    PrimeGcd(1009, 2018);
    StrideMeets(1009, 2018, 1);
    InNames(2018, 1);
  }

  /** When it does not divide their number, each file is met exactly once. */
  lemma StrideMeetsOnce(p: nat, n: nat, k: nat)
    requires IsPrime(p) && k < n && !Divides(p, n)
    ensures Hits(p, p, n, k, n) == 1
  {
    PrimeGcd(p, n);
    StrideCoverage(p, p, n, k);
    assert Divides(1, k - p);
  }

  class Directory {
    var files: set<nat>
    ghost var log: seq<nat>    // the names unlinked, in order
    ghost var refusals: nat    // how many `open` calls have failed

    method Unlink(f: nat)
      modifies this`files, this`log
      ensures files == old(files) - {f} && log == old(log) + [f]
    {
      files, log := files - {f}, log + [f];
    }

    /** `open` of a new file, which may fail. */
    method Create(f: nat) returns (ok: bool)
      modifies this`files, this`refusals
      ensures files == if ok then old(files) + {f} else old(files)
      ensures refusals == if ok then old(refusals) else old(refusals) + 1
    {
      ok := *;
      if ok { files := files + {f}; } else { refusals := refusals + 1; }
    }

    method UnlinkReverse(n: nat)
      modifies this`files, this`log
      ensures files == old(files) - Names(n)
      ensures |log| == |old(log)| + n && old(log) <= log
      ensures forall i | |old(log)| <= i < |log| :: log[i] == Gray(n - 1 - (i - |old(log)|))
    {
      var i := 0;
      while i < n
        invariant 0 <= i <= n
        invariant files == old(files) - (Names(n) - Names(n - i))
        invariant Names(n - i) <= Names(n)
        invariant |log| == |old(log)| + i && old(log) <= log
        invariant forall k | |old(log)| <= k < |log| :: log[k] == Gray(n - 1 - (k - |old(log)|))
      {
        var j := n - 1 - i;
        InNames(j, j);
        assert Names(n - i) == Names(j) + {Gray(j)};
        Unlink(Gray(j));
        i := i + 1;
      }
    }

    method UnlinkStride(n: nat, source: StridePrime)
      requires source.Valid() && n <= MAX_DENTRIES
      modifies this`files, this`log, source
      ensures source.Valid() && source.p != n
      ensures n == 0 ==> files == old(files)
      ensures n > 0 ==> files == old(files) - Strided(source.p, n, n)
      ensures |log| == |old(log)| + n && old(log) <= log
      ensures forall i | |old(log)| <= i < |log| :: log[i] == Gray((1 + i - |old(log)|) * source.p % n)
    {
      hide Gray;
      var prime := source.Get(n);
      var i, j := 0, prime;
      while i < n
        invariant 0 <= i <= n && j == prime + i * prime && source.p == prime && source.Valid()
        invariant if n > 0 then files == old(files) - Strided(prime, n, i) else files == old(files)
        invariant |log| == |old(log)| + i && old(log) <= log
        invariant forall k | |old(log)| <= k < |log| :: log[k] == Gray((1 + k - |old(log)|) * prime % n)
      {
        var k := j % n;
        assert k == Visit(prime, prime, n, i);
        assert j == (1 + i) * prime;
        Unlink(Gray(k));
        NoOverflow(i, n, prime);
        assert j + prime < 0x1_0000_0000_0000_0000;
        assert prime + (i + 1) * prime == prime + i * prime + prime;
        j := j + prime;
        i := i + 1;
      }
    }

    method UnlinkForward(n: nat)
      modifies this`files, this`log
      ensures files == old(files) - Names(n)
      ensures |log| == |old(log)| + n && old(log) <= log
      ensures forall i | |old(log)| <= i < |log| :: log[i] == Gray(i - |old(log)|)
    {
      var i := 0;
      while i < n
        invariant 0 <= i <= n && files == old(files) - Names(i)
        invariant |log| == |old(log)| + i && old(log) <= log
        invariant forall k | |old(log)| <= k < |log| :: log[k] == Gray(k - |old(log)|)
      {
        Unlink(Gray(i));
        i := i + 1;
      }
    }

    /** `stress_dentry_unlink`; a random order is one of the three, and any other value means forward. */
    method UnlinkAll(n: nat, order: nat, source: StridePrime) returns (used: nat)
      requires source.Valid() && n <= MAX_DENTRIES
      modifies this`files, this`log, source
      ensures source.Valid() && (order != 3 ==> used == order) && (order == 3 ==> used < 3)
      ensures used != 2 ==> files == old(files) - Names(n)
      ensures used == 2 && n > 0 ==> files == old(files) - Strided(source.p, n, n)
      ensures used == 2 && n == 0 ==> files == old(files)
      ensures |log| == |old(log)| + n && old(log) <= log
      ensures forall i | |old(log)| <= i < |log| ::
        var t := i - |old(log)|;
        log[i] == if used == 1 then Gray(n - 1 - t) else if used == 2 then Gray((1 + t) * source.p % n) else Gray(t)
    {
      hide Gray;
      used := order;
      if order == ORDER_RANDOM {
        var draw: nat := *;
        used := draw % 3;
      }
      if used == ORDER_REVERSE {
        UnlinkReverse(n);
      } else if used == ORDER_STRIDE {
        UnlinkStride(n, source);
      } else {
        UnlinkForward(n);
      }
    }

    /** The creation loop: stops at the first failed `open`, or after a file when told to stop. */
    method CreateAll(dentries: nat, flag: Flag) returns (n: nat, aborted: bool)
      modifies this`files, this`refusals, flag
      ensures n <= dentries && files == old(files) + Names(n) && (aborted ==> n > 0)
      ensures refusals >= old(refusals)
      ensures refusals == old(refusals) && !aborted ==> n == dentries
      ensures (aborted ==> !flag.go) && (flag.go ==> old(flag.go))
      ensures !old(flag.go) && dentries > 0 ==> if refusals == old(refusals) then aborted && n == 1 else n == 0
    {
      n, aborted := dentries, false;
      var i := 0;
      while i < n
        invariant 0 <= i <= n == dentries && files == old(files) + Names(i) && !aborted && refusals == old(refusals)
        invariant (flag.go ==> old(flag.go)) && (!old(flag.go) ==> i == 0)
      {
        var ok := Create(Gray(i));
        if !ok { n := i; break; }
        var keepStressing := flag.Read();
        if !keepStressing { return i + 1, true; }
        i := i + 1;
      }
    }

    /**
      `stress_dentry` for a run of `rounds` rounds in an empty directory. The closing removal
      leaves it empty unless that removal strides by a prime that divides the number of entries,
      and then too none of the strided names is left. A run in which no call fails and that is
      not told to stop unlinks every name in every round, and once more at the end.
     */
    method Stress(dentries: nat, order: nat, source: StridePrime, flag: Flag, rounds: nat)
      returns (closing: nat, aborted: bool)
      requires files == {} && source.Valid() && dentries <= MAX_DENTRIES
      modifies this, source, flag
      ensures source.Valid() && files <= Names(dentries)
      ensures closing != 2 || !Divides(source.p, dentries) ==> files == {}
      ensures closing == 2 && dentries > 0 ==> files !! Strided(source.p, dentries, dentries)
      ensures refusals >= old(refusals)
      ensures (aborted ==> !flag.go) && (flag.go ==> old(flag.go))
      ensures refusals == old(refusals) && !aborted ==> |log| == |old(log)| + rounds * dentries + dentries
    {
      var left := rounds;
      aborted := false;
      while left > 0
        invariant 0 <= left <= rounds && source.Valid() && files <= Names(dentries) && refusals >= old(refusals)
        invariant !aborted && (flag.go ==> old(flag.go))
        invariant refusals == old(refusals) ==> |log| == |old(log)| + (rounds - left) * dentries
      {
        left := left - 1;
        var n;
        n, aborted := CreateAll(dentries, flag);
        NamesGrow(n, dentries);
        if aborted { break; }
        var used := UnlinkAll(n, order, source);
        assert (rounds - left) * dentries == (rounds - left - 1) * dentries + dentries;
      }
      closing := UnlinkAll(dentries, order, source);
      if closing == ORDER_STRIDE && dentries > 0 { StrideRemovesAll(source.p, dentries); }
    }
  }

  lemma {:induction false} NamesGrow(a: nat, b: nat)
    requires a <= b
    ensures Names(a) <= Names(b)
    decreases b
  {
    if a < b { NamesGrow(a, b - 1); }
  }

  lemma NoOverflow(i: nat, n: nat, prime: nat)
    requires i < n <= MAX_DENTRIES && prime < UINT_RANGE
    ensures prime + i * prime + prime < 0x1_0000_0000_0000_0000
  {
    MulMono(i, prime, MAX_DENTRIES, UINT_RANGE);
  }
}
