/** The cache stressor's sweeps over its buffer: steps of 32769, wrapped by a mask or by a modulus. */
module CacheSweep {
  import opened Bits
  import opened Stride

  const STEP: nat := 32769

  /** The write sweep's next index: `(i + 32769) & (size - 1)`. */
  function NextWrite(i: nat, size: nat): nat
    requires size > 0
  {
    And(i + STEP, size - 1)
  }

  /** The read sweep's next index. */
  function NextRead(i: nat, size: nat): nat
    requires size > 0
  {
    (i + STEP) % size
  }

  /** The index of the write sweep after `t` steps from `i`. */
  function WriteAt(i: nat, size: nat, t: nat): nat
    requires size > 0
  {
    if t == 0 then i else NextWrite(WriteAt(i, size, t - 1), size)
  }

  ghost predicate IsPow2(size: nat) {
    exists b: nat :: size == Pow2(b)
  }

  /** `size` steps from `i` write every index. */
  ghost predicate WritesAll(i: nat, size: nat)
    requires size > 0
  {
    forall k: nat | k < size :: Written(i, size, k, size)
  }

  ghost predicate Written(i: nat, size: nat, k: nat, e: nat)
    requires size > 0
  {
    exists t: nat :: t < e && WriteAt(i, size, t) == k
  }

  lemma {:induction false} AndAtMost(x: nat, m: nat)
    ensures And(x, m) <= m
  {
    if x > 0 { AndAtMost(x / 2, m / 2); }
  }

  /** On a power of two the mask and the modulus sweep the same indices. */
  lemma VisitFirst(i: nat, size: nat)
    requires i < size
    ensures Visit(i, STEP, size, 0) == i
  {
    ModUnique(i, size, 0, i);
  }

  lemma VisitBelow(i: nat, size: nat, t: nat)
    requires size > 0
    ensures Visit(i, STEP, size, t) < size
  {}

  lemma VisitNext(i: nat, size: nat, t: nat)
    requires size > 0
    ensures NextRead(Visit(i, STEP, size, t), size) == Visit(i, STEP, size, t + 1)
  {
    var x := i + t * STEP;
    SumMod(x, STEP, size);
    SumMod(x % size, STEP, size);
    ModUnique(x % size, size, 0, x % size);
    assert i + (t + 1) * STEP == x + STEP;
  }

  /** On a power of two both sweeps go in steps of 32769 around the buffer; the read sweep does at every size. */
  lemma SweepOrder(i: nat, b: nat, size: nat, t: nat)
    ensures i < Pow2(b) ==> WriteAt(i, Pow2(b), t) == (i + 32769 * t) % Pow2(b)
    ensures size > 0 ==> NextRead((i + 32769 * t) % size, size) == (i + 32769 * (t + 1)) % size
  {
    if i < Pow2(b) { WriteIsVisit(i, b, t); }
    if size > 0 { VisitNext(i, size, t); }
  }

  lemma {:induction false} WriteIsVisit(i: nat, b: nat, t: nat)
    requires i < Pow2(b)
    ensures WriteAt(i, Pow2(b), t) == Visit(i, STEP, Pow2(b), t)
  {
    var size := Pow2(b);
    hide Visit, Pow2, And;
    if t == 0 {
      VisitFirst(i, size);
    } else {
      WriteIsVisit(i, b, t - 1);
      MaskIsMod(Visit(i, STEP, size, t - 1) + STEP, b);
      VisitNext(i, size, t - 1);
    }
  }

  lemma {:induction false} OddDivisorOfPow2(g: nat, b: nat)
    requires Divides(g, Pow2(b)) && g % 2 == 1
    ensures g == 1
  {
    var q := Pow2(b) / g;
    DividesIff(g, Pow2(b), 0);
    if b == 0 {
      MulAtLeast(g, q);
    } else {
      OddTimes(g, q);
      assert g * (q / 2) == Pow2(b - 1) by { assert g * q == 2 * (g * (q / 2)); }
      DividesIff(g, Pow2(b - 1), q / 2);
      OddDivisorOfPow2(g, b - 1);
    }
  }

  lemma OddTimes(g: nat, q: nat)
    requires g % 2 == 1 && (g * q) % 2 == 0
    ensures q % 2 == 0
  {
    var h := g / 2;
    assert g * q == 2 * (h * q) + q;
  }

  lemma EvenTimes(g: nat, q: nat)
    ensures g % 2 == 0 ==> (g * q) % 2 == 0
  {
    if g % 2 == 0 { assert g * q == 2 * ((g / 2) * q); }
  }

  lemma StepCoprime(b: nat)
    ensures Gcd(STEP, Pow2(b)) == 1
  {
    var g := Gcd(STEP, Pow2(b));
    GcdDivides(STEP, Pow2(b));
    DividesIff(g, STEP, 0);
    EvenTimes(g, STEP / g);
    OddDivisorOfPow2(g, b);
  }

  /** Either `m + 1` is a power of two or `m` has a zero bit below its top bit. */
  lemma {:induction false} GapInMask(m: nat) returns (pow: bool, z: nat)
    ensures if pow then m + 1 == Pow2(z) else !Has(m, z) && Pow2(z + 1) <= m
  {
    if m == 0 {
      pow, z := true, 0;
    } else if m % 2 == 0 {
      pow, z := false, 0;
    } else {
      pow, z := GapInMask(m / 2);
      z := z + 1;
    }
  }

  /** Past the start, the sweep only visits indices without the bits missing from the mask. */
  lemma MissedBit(i: nat, size: nat, t: nat, z: nat)
    requires size > 0 && t > 0 && !Has(size - 1, z)
    ensures !Has(WriteAt(i, size, t), z)
  {
    HasAnd(WriteAt(i, size, t - 1) + STEP, size - 1, z);
  }

  lemma NotWritten(i: nat, size: nat, z: nat, k: nat)
    requires size > 0 && !Has(size - 1, z) && Has(k, z) && k != i && k < size
    ensures !WritesAll(i, size)
  {
    forall t: nat | t < size ensures WriteAt(i, size, t) != k {
      if t > 0 { MissedBit(i, size, t, z); }
    }
    assert !Written(i, size, k, size);
  }

  lemma {:induction false} Pow2PlusOne(z: nat)
    requires z > 0
    ensures Pow2(z) + 1 < Pow2(z + 1) && Has(Pow2(z) + 1, z)
  {
    assert (Pow2(z) + 1) / 2 == Pow2(z - 1);
    HasPow2(z - 1, z - 1);
  }

  /** A size that is not a power of two leaves an index unwritten, wherever the sweep starts. */
  lemma NotPow2Misses(i: nat, size: nat, z: nat)
    requires i < size && !Has(size - 1, z) && Pow2(z + 1) <= size - 1
    ensures !WritesAll(i, size)
  {
    HasPow2(z, z);
    if i != Pow2(z) {
      NotWritten(i, size, z, Pow2(z));
    } else if z > 0 {
      Pow2PlusOne(z);
      NotWritten(i, size, z, Pow2(z) + 1);
    } else if size >= 5 {
      NotWritten(i, size, 0, 3);
    } else {
      ThreeBytes(size);
    }
  }

  lemma ThreeBytes(size: nat)
    requires 3 <= size < 5 && !Has(size - 1, 0)
    ensures !WritesAll(1, size)
  {
    hide And;
    MaskBit1(1 + STEP);
    MaskBit1(2 + STEP);
    assert WriteAt(1, 3, 1) == NextWrite(1, 3) == 2;
    assert WriteAt(1, 3, 2) == NextWrite(2, 3) == 2;
    forall t: nat | t < 3 ensures WriteAt(1, 3, t) != 0 { assert t == 0 || t == 1 || t == 2; }
    assert !Written(1, 3, 0, 3);
  }

  lemma MaskBit1(x: nat)
    ensures And(x, 2) == if x / 2 % 2 == 1 then 2 else 0
  {
    if x > 1 { assert And(x / 2, 1) == 2 * And(x / 4, 0) + (if x / 2 % 2 == 1 then 1 else 0); AndZero(x / 4); }
  }

  /** The write sweep covers the buffer if and only if its size is a power of two. */
  lemma WriteSweepCoverage(i: nat, size: nat)
    requires i < size
    ensures WritesAll(i, size) <==> IsPow2(size)
  {
    var pow, z := GapInMask(size - 1);
    if pow {
      forall k: nat | k < size ensures Written(i, size, k, size) {
        StepCoprime(z);
        StrideCoverage(i, STEP, size, k);
        assert Divides(1, k - i);
        HitsPositive(i, STEP, size, k, size);
        var t: nat :| t < size && Visit(i, STEP, size, t) == k;
        WriteIsVisit(i, z, t);
      }
    } else {
      NotPow2Misses(i, size, z);
      forall b: nat ensures size != Pow2(b) { if size == Pow2(b) { PowHasNoGap(b, z); } }
    }
  }

  lemma PowHasNoGap(b: nat, z: nat)
    requires Pow2(z + 1) <= Pow2(b) - 1
    ensures Has(Pow2(b) - 1, z)
  {
    if b < z + 1 { Pow2Less(b, z + 1); }
    HasAllOnes(b, z);
  }

  /** How often `t` turns of the read sweep from `i` read byte `k`: each reads an index and its mirror. */
  function ReadCount(i: nat, size: nat, k: nat, t: nat): nat
    requires k < size
  {
    Hits(i, STEP, size, k, t) + Hits(i, STEP, size, size - 1 - k, t)
  }

  /** A common factor leaves at least three classes of indices, and a turn meets at most two. */
  lemma ReadMissed(i: nat, size: nat) returns (k: nat)
    requires i < size && Gcd(STEP, size) >= 3
    ensures k < size && ReadCount(i, size, k, size) == 0
  {
    hide Hits;
    var g := Gcd(STEP, size);
    GcdDivides(STEP, size);
    MultipleIsLarge(g, size);
    var a, b := i % g, (size - 1 - i) % g;
    k := if a != 0 && b != 0 then 0 else if a != 1 && b != 1 then 1 else 2;
    ModUnique(k, g, 0, k);
    SameResidue(g, k, i);
    SameResidue(g, size - 1 - i, k);
    StrideCoverage(i, STEP, size, k);
    StrideCoverage(i, STEP, size, size - 1 - k);
    assert size - 1 - i - k == size - 1 - k - i;
  }

  /**
    The read sweep reads every byte, and then every byte twice, if and only if 32769 and the size
    have no common factor.
   */
  lemma ReadSweepCoverage(i: nat, size: nat)
    requires i < size
    ensures (forall k: nat | k < size :: ReadCount(i, size, k, size) == 2) <==> Gcd(32769, size) == 1
    ensures (forall k: nat | k < size :: ReadCount(i, size, k, size) > 0) <==> Gcd(32769, size) == 1
  {
    hide Hits;
    var g := Gcd(STEP, size);
    GcdDivides(STEP, size);
    if g == 1 {
      forall k: nat | k < size ensures ReadCount(i, size, k, size) == 2 {
        StrideCoverage(i, STEP, size, k);
        StrideCoverage(i, STEP, size, size - 1 - k);
        assert Divides(1, k - i) && Divides(1, size - 1 - k - i);
      }
    } else {
      assert g != 2;
      var k := ReadMissed(i, size);
    }
  }

  /** What `t` turns of the read sweep add up. */
  ghost function ReadSum(mem: seq<nat>, i: nat, t: nat): nat
    requires i < |mem|
  {
    if t == 0 then 0
    else
      var k := Visit(i, STEP, |mem|, t - 1);
      ReadSum(mem, i, t - 1) + mem[k] + mem[|mem| - 1 - k]
  }

  ghost function Sum(mem: seq<nat>): nat {
    if mem == [] then 0 else Sum(mem[..|mem| - 1]) + mem[|mem| - 1]
  }

  /** The first `m` bytes, each as often as it is read in `t` turns. */
  ghost function Weighted(mem: seq<nat>, i: nat, t: nat, m: nat): nat
    requires m <= |mem|
  {
    if m == 0 then 0 else Weighted(mem, i, t, m - 1) + ReadCount(i, |mem|, m - 1, t) * mem[m - 1]
  }

  lemma {:induction false} WeightedNone(mem: seq<nat>, i: nat, m: nat)
    requires m <= |mem|
    ensures Weighted(mem, i, 0, m) == 0
  {
    if m > 0 { WeightedNone(mem, i, m - 1); }
  }

  lemma CountMore(c: nat, d: nat, x: nat)
    ensures (c + d) * x == c * x + d * x
  {}

  lemma {:induction false} WeightedTurn(mem: seq<nat>, i: nat, t: nat, m: nat)
    requires i < |mem| && m <= |mem|
    ensures var v := Visit(i, STEP, |mem|, t); var w := |mem| - 1 - v;
      Weighted(mem, i, t + 1, m)
        == Weighted(mem, i, t, m) + (if v < m then mem[v] else 0) + (if w < m then mem[w] else 0)
  {
    hide Visit;
    VisitBelow(i, |mem|, t);
    if m > 0 {
      WeightedTurn(mem, i, t, m - 1);
      var v, k := Visit(i, STEP, |mem|, t), m - 1;
      var d := (if v == k then 1 else 0) + if v == |mem| - 1 - k then 1 else 0;
      assert ReadCount(i, |mem|, k, t + 1) == ReadCount(i, |mem|, k, t) + d;
      CountMore(ReadCount(i, |mem|, k, t), d, mem[k]);
      TimesUpToTwo(d, mem[k]);
    }
  }

  lemma TimesUpToTwo(d: nat, x: nat)
    requires d <= 2
    ensures d * x == (if d >= 1 then x else 0) + if d >= 2 then x else 0
  {}

  lemma {:induction false} SumIsWeighted(mem: seq<nat>, i: nat, t: nat)
    requires i < |mem|
    ensures ReadSum(mem, i, t) == Weighted(mem, i, t, |mem|)
  {
    hide Visit;
    if t == 0 {
      WeightedNone(mem, i, |mem|);
    } else {
      VisitBelow(i, |mem|, t - 1);
      SumIsWeighted(mem, i, t - 1);
      WeightedTurn(mem, i, t - 1, |mem|);
    }
  }

  lemma {:induction false} WeightedTwice(mem: seq<nat>, i: nat, m: nat)
    requires m <= |mem| && forall k: nat | k < |mem| :: ReadCount(i, |mem|, k, |mem|) == 2
    ensures Weighted(mem, i, |mem|, m) == 2 * Sum(mem[..m])
  {
    hide ReadCount;
    if m > 0 {
      WeightedTwice(mem, i, m - 1);
      assert mem[..m][..m - 1] == mem[..m - 1];
    }
  }

  /** So a whole sweep of such a size adds up the buffer twice, wherever it starts. */
  lemma ReadSweepTotal(mem: seq<nat>, i: nat)
    requires i < |mem| && Gcd(32769, |mem|) == 1
    ensures ReadSum(mem, i, |mem|) == 2 * Sum(mem)
  {
    hide ReadCount, Gcd, Weighted;
    ReadSweepCoverage(i, |mem|);
    SumIsWeighted(mem, i, |mem|);
    WeightedTwice(mem, i, |mem|);
    assert mem[..|mem|] == mem;
  }

  lemma {:induction false} Pow2NotTriple(b: nat)
    ensures Pow2(b) % 3 != 0
  {
    if b > 0 {
      Pow2NotTriple(b - 1);
      Doubled(Pow2(b), Pow2(b - 1));
    }
  }

  lemma Doubled(x: nat, y: nat)
    requires x == 2 * y && y % 3 != 0
    ensures x % 3 != 0
  {}

  /** A cache of three megabytes is one that both sweeps leave partly untouched. */
  lemma ThreeMegabytes(i: nat)
    requires i < 0x30_0000
    ensures !WritesAll(i, 0x30_0000)
    ensures exists k: nat :: k < 0x30_0000 && ReadCount(i, 0x30_0000, k, 0x30_0000) == 0
  {
    hide Gcd, ReadCount, WritesAll;
    var size: nat := 0x30_0000;
    forall b: nat ensures size != Pow2(b) { Pow2NotTriple(b); }
    WriteSweepCoverage(i, size);
    assert Divides(3, STEP) && Divides(3, size);
    GcdGreatest(STEP, size, 3);
    ReadSweepCoverage(i, size);
  }

  lemma WriteInBounds(i: nat, size: nat, t: nat)
    requires i < size
    ensures WriteAt(i, size, t) < size
  {
    if t > 0 { AndAtMost(WriteAt(i, size, t - 1) + STEP, size - 1); }
  }

  /** The buffer after `t` steps of the write sweep, each adding the mirrored byte and `r`. */
  ghost function Swept(mem: seq<nat>, i: nat, r: nat, t: nat): (m: seq<nat>)
    requires i < |mem|
    ensures |m| == |mem|
  {
    if t == 0 then mem
    else
      var m, k := Swept(mem, i, r, t - 1), WriteAt(i, |mem|, t - 1);
      WriteInBounds(i, |mem|, t - 1);
      m[k := (m[k] + m[|mem| - 1 - k] + r) % 256]
  }

  /** `CACHE_WRITE`: the sweep in place; the program may be told to stop during step `stopIn`. */
  method WriteSweep(mem: array<nat>, start: nat, r: nat, stopIn: nat) returns (steps: nat)
    requires start < mem.Length
    modifies mem
    ensures mem[..] == Swept(old(mem[..]), start, r, steps)
    ensures steps == if 0 < stopIn <= mem.Length then stopIn else mem.Length
  {
    hide And;
    var size, i, j := mem.Length, start, 0;
    steps := 0;
    while j < size
      invariant 0 <= j <= size && steps == j && i == WriteAt(start, size, j) && !(0 < stopIn <= j)
      invariant mem[..] == Swept(old(mem[..]), start, r, j)
    {
      WriteInBounds(start, size, j);
      mem[i] := (mem[i] + mem[size - 1 - i] + r) % 256;
      i := NextWrite(i, size);
      steps := j + 1;
      if steps == stopIn { break; }
      j := j + 1;
    }
  }

  /** The read sweep: it adds to a 32-bit total; the program may be told to stop during turn `stopIn`. */
  method ReadSweep(mem: array<nat>, start: nat, before: nat, stopIn: nat) returns (total: nat, steps: nat)
    requires start < mem.Length && before == Word32(before)
    ensures total == Word32(before + ReadSum(mem[..], start, steps))
    ensures steps == if 0 < stopIn <= mem.Length then stopIn else mem.Length
  {
    hide Visit, NextRead, Word32;
    var size, i, j := mem.Length, start, 0;
    total, steps := before, 0;
    VisitFirst(start, size);
    while j < size
      invariant 0 <= j <= size && steps == j && i == Visit(start, STEP, size, j) < size && !(0 < stopIn <= j)
      invariant total == Word32(before + ReadSum(mem[..], start, j))
    {
      WrapOnce(before + ReadSum(mem[..], start, j), mem[i] + mem[size - 1 - i]);
      total := Word32(total + (mem[i] + mem[size - 1 - i]));
      VisitNext(start, size, j);
      VisitBelow(start, size, j + 1);
      i := NextRead(i, size);
      steps := j + 1;
      if steps == stopIn { break; }
      j := j + 1;
    }
  }

  /** On a power of two no index is written twice. */
  lemma WriteOnce(i: nat, b: nat, t: nat, u: nat)
    requires i < Pow2(b) && t < u < Pow2(b)
    ensures WriteAt(i, Pow2(b), t) != WriteAt(i, Pow2(b), u)
  {
    var size := Pow2(b);
    var k := WriteAt(i, size, t);
    WriteInBounds(i, size, t);
    WriteIsVisit(i, b, t);
    WriteIsVisit(i, b, u);
    if WriteAt(i, size, u) == k {
      StepCoprime(b);
      StrideCoverage(i, STEP, size, k);
      assert Divides(1, k - i);
      HitsGrow(i, STEP, size, k, t + 1, u);
      HitsGrow(i, STEP, size, k, u + 1, size);
    }
  }

  lemma {:induction false} HitsGrow(s: nat, p: nat, n: nat, k: nat, a: nat, b: nat)
    requires n > 0 && a <= b
    ensures Hits(s, p, n, k, a) <= Hits(s, p, n, k, b)
    decreases b
  {
    if a < b { HitsGrow(s, p, n, k, a, b - 1); }
  }

  /** What step `t` leaves in its byte, given the buffer before the sweep. */
  ghost function Final(mem: seq<nat>, i: nat, r: nat, t: nat): nat
    requires i < |mem|
  {
    WriteInBounds(i, |mem|, t);
    var k := WriteAt(i, |mem|, t);
    var mirror := |mem| - 1 - k;
    if Written(i, |mem|, mirror, t)
      then (mem[k] + (mem[mirror] + mem[k] + r) % 256 + r) % 256
      else (mem[k] + mem[mirror] + r) % 256
  }

  /** Unwritten bytes are as before. */
  lemma {:induction false} SweptUntouched(mem: seq<nat>, i: nat, r: nat, e: nat, k: nat)
    requires i < |mem| && k < |mem| && !Written(i, |mem|, k, e)
    ensures Swept(mem, i, r, e)[k] == mem[k]
  {
    if e > 0 {
      WriteInBounds(i, |mem|, e - 1);
      assert WriteAt(i, |mem|, e - 1) != k;
      WrittenEarlier(i, |mem|, k, e);
      SweptUntouched(mem, i, r, e - 1, k);
    }
  }

  lemma WrittenEarlier(i: nat, size: nat, k: nat, e: nat)
    requires size > 0 && e > 0
    ensures Written(i, size, k, e) <==> Written(i, size, k, e - 1) || WriteAt(i, size, e - 1) == k
  {
    if Written(i, size, k, e - 1) {
      var t: nat :| t < e - 1 && WriteAt(i, size, t) == k;
      assert t < e;
    }
    if WriteAt(i, size, e - 1) == k { assert e - 1 < e; }
    if Written(i, size, k, e) {
      var t: nat :| t < e && WriteAt(i, size, t) == k;
      assert t < e - 1 || t == e - 1;
    }
  }

  lemma NotWrittenBefore(i: nat, b: nat, t: nat, e: nat)
    requires i < Pow2(b) && e <= t < Pow2(b)
    ensures !Written(i, Pow2(b), WriteAt(i, Pow2(b), t), e)
  {
    forall u: nat | u < e ensures WriteAt(i, Pow2(b), u) != WriteAt(i, Pow2(b), t) { WriteOnce(i, b, u, t); }
  }

  /**
    On a power of two, every byte is written once: the first of a mirrored pair adds the other's
    old value, the second adds the first's new one.
   */
  lemma {:induction false} SweptBytes(mem: seq<nat>, i: nat, r: nat, b: nat, e: nat, t: nat)
    requires |mem| == Pow2(b) && i < |mem| && t < e <= |mem|
    ensures WriteAt(i, |mem|, t) < |mem| && Swept(mem, i, r, e)[WriteAt(i, |mem|, t)] == Final(mem, i, r, t)
    decreases e
  {
    hide WriteAt, NextWrite, Pow2;
    var size := |mem|;
    WriteInBounds(i, size, t);
    if t < e - 1 {
      SweptBytes(mem, i, r, b, e - 1, t);
      WriteOnce(i, b, t, e - 1);
      WriteInBounds(i, size, e - 1);
    } else {
      var k := WriteAt(i, size, t);
      var mirror := size - 1 - k;
      NotWrittenBefore(i, b, t, t);
      SweptUntouched(mem, i, r, t, k);
      if Written(i, size, mirror, t) {
        var u: nat :| u < t && WriteAt(i, size, u) == mirror;
        SweptBytes(mem, i, r, b, t, u);
        NotWrittenBefore(i, b, t, u);
        assert size - 1 - mirror == k;
      } else {
        SweptUntouched(mem, i, r, t, mirror);
      }
    }
  }
}
