/**
  The recursive ping-pong FFT of the CPU stressor, over exact complex numbers.

  The twiddle factor `cexp(-I * M_PI * i / n)` is the `i`-th power of `cexp(-I * M_PI / n)`.
  That number is the parameter `root`, and all that is used of it is `root^n == -1`.
 */
module Fft {
  import opened Basics
  import opened Bits

  datatype Complex = Complex(re: real, im: real)

  const ZERO := Complex(0.0, 0.0)
  const ONE := Complex(1.0, 0.0)
  const MINUS_ONE := Complex(-1.0, 0.0)
  const I := Complex(0.0, 1.0)

  function Add(a: Complex, b: Complex): Complex {
    Complex(a.re + b.re, a.im + b.im)
  }

  function Sub(a: Complex, b: Complex): Complex {
    Complex(a.re - b.re, a.im - b.im)
  }

  function Mul(a: Complex, b: Complex): Complex {
    Complex(a.re * b.re - a.im * b.im, a.re * b.im + a.im * b.re)
  }

  /** The twiddle factor: `root` to the power `e`. */
  function Power(root: Complex, e: nat): Complex {
    if e == 0 then ONE else Mul(root, Power(root, e - 1))
  }

  /** The first `j` terms of the DFT sum: x[0] + ... + x[j-1] root^(step (j-1) k). */
  ghost function DftSum(x: seq<Complex>, root: Complex, step: nat, k: nat, j: nat): Complex
    requires j <= |x|
  {
    if j == 0 then ZERO
    else Add(DftSum(x, root, step, k, j - 1), Mul(x[j - 1], Power(root, step * (j - 1) * k)))
  }

  /** Coefficient `k` of the discrete Fourier transform of `x` for the root of unity `root^step`. */
  ghost function Dft(x: seq<Complex>, root: Complex, step: nat, k: nat): Complex {
    DftSum(x, root, step, k, |x|)
  }

  lemma MulAssoc(a: Complex, b: Complex, c: Complex)
    ensures Mul(a, Mul(b, c)) == Mul(Mul(a, b), c)
  {}

  lemma MulComm(a: Complex, b: Complex)
    ensures Mul(a, b) == Mul(b, a)
  {}

  lemma MulAdd(a: Complex, b: Complex, c: Complex)
    ensures Mul(a, Add(b, c)) == Add(Mul(a, b), Mul(a, c))
  {}

  lemma AddSwap(a: Complex, b: Complex, c: Complex, d: Complex)
    ensures Add(Add(Add(a, b), c), d) == Add(Add(a, c), Add(b, d))
  {}

  lemma MulUnits(a: Complex)
    ensures Mul(a, ONE) == a && Mul(ONE, a) == a && Mul(a, ZERO) == ZERO && Add(ZERO, ZERO) == ZERO
    ensures Mul(MINUS_ONE, MINUS_ONE) == ONE
  {}

  /** The laws that make pairs of reals the complex numbers; the square of the imaginary unit is -1. */
  lemma ComplexNumbers(a: Complex, b: Complex, x: real, y: real)
    ensures Mul(I, I) == MINUS_ONE && Mul(I, Complex(y, 0.0)) == Complex(0.0, y)
    ensures Complex(x, y) == Add(Complex(x, 0.0), Mul(I, Complex(y, 0.0)))
    ensures Add(Complex(x, 0.0), Complex(y, 0.0)) == Complex(x + y, 0.0)
    ensures Mul(Complex(x, 0.0), Complex(y, 0.0)) == Complex(x * y, 0.0)
    ensures Add(a, ZERO) == a && Add(a, b) == Add(b, a) && Sub(Add(a, b), b) == a
  {}

  lemma MulMinusOne(a: Complex, b: Complex, v: Complex)
    ensures Add(v, Mul(Mul(a, MINUS_ONE), b)) == Sub(v, Mul(a, b))
  {}

  lemma {:induction false} PowerAdd(root: Complex, a: nat, b: nat)
    ensures Power(root, a + b) == Mul(Power(root, a), Power(root, b))
  {
    if a == 0 {
      MulUnits(Power(root, b));
    } else {
      PowerAdd(root, a - 1, b);
      MulAssoc(root, Power(root, a - 1), Power(root, b));
    }
  }

  /** Multiples of a full turn leave powers at 1. */
  lemma {:induction false} PowerOne(root: Complex, e: nat, t: nat)
    requires Power(root, e) == ONE
    ensures Power(root, t * e) == ONE
  {
    hide Mul;
    if t > 0 {
      PowerOne(root, e, t - 1);
      assert t * e == (t - 1) * e + e;
      PowerAdd(root, (t - 1) * e, e);
      MulUnits(ONE);
    }
  }

  /** Every `m`-th element of `a` from `off`, `count` of them. */
  ghost function Strided(a: seq<Complex>, off: nat, m: nat, count: nat): (s: seq<Complex>)
    requires InRange(|a|, off, m, count)
    ensures |s| == count
    ensures forall j | 0 <= j < count :: s[j] == a[Pos(off, m, j)]
  {
    seq(count, j requires 0 <= j < count => a[Pos(off, m, j)])
  }

  function Pos(off: nat, m: nat, j: nat): nat {
    off + m * j
  }

  ghost predicate InRange(len: nat, off: nat, m: nat, count: nat) {
    forall j: nat | j < count :: Pos(off, m, j) < len
  }

  lemma EvenOddExponents(step: nat, j: nat, k: nat)
    ensures step * (2 * j) * k == (2 * step) * j * k
    ensures step * (2 * j + 1) * k == (2 * step) * j * k + step * k
  {
    assert step * (2 * j) == (2 * step) * j;
    assert step * (2 * j + 1) == (2 * step) * j + step;
  }

  /** Decimation in time: a DFT sum splits into those of the even and of the odd elements. */
  lemma {:induction false} SplitSum(x: seq<Complex>, e: seq<Complex>, o: seq<Complex>, root: Complex,
                                    step: nat, k: nat, j: nat)
    requires |x| == 2 * |e| == 2 * |o| && j <= |e|
    requires forall i | 0 <= i < |e| :: e[i] == x[2 * i] && o[i] == x[2 * i + 1]
    ensures DftSum(x, root, step, k, 2 * j)
         == Add(DftSum(e, root, 2 * step, k, j), Mul(Power(root, step * k), DftSum(o, root, 2 * step, k, j)))
  {
    hide Mul, Add, Power;
    var t := Power(root, step * k);
    if j == 0 {
      MulUnits(t);
    } else {
      var i := j - 1;
      SplitSum(x, e, o, root, step, k, i);
      EvenOddExponents(step, i, k);
      var p := Power(root, (2 * step) * i * k);
      var es, os := DftSum(e, root, 2 * step, k, i), DftSum(o, root, 2 * step, k, i);
      var ei, oi := Mul(e[i], p), Mul(o[i], p);
      assert DftSum(x, root, step, k, 2 * j) == Add(Add(Add(es, Mul(t, os)), ei), Mul(t, oi)) by {
        PowerAdd(root, (2 * step) * i * k, step * k);
        MulAssoc(o[i], p, t);
        MulComm(oi, t);
        assert DftSum(x, root, step, k, 2 * i + 1) == Add(DftSum(x, root, step, k, 2 * i), ei);
      }
      MulAdd(t, os, oi);
      AddSwap(es, Mul(t, os), ei, Mul(t, oi));
    }
  }

  /** A transform of `h` points repeats after `h` coefficients. */
  lemma {:induction false} Periodic(x: seq<Complex>, root: Complex, step: nat, h: nat, k: nat, j: nat)
    requires Power(root, step * h) == ONE && j <= |x|
    ensures DftSum(x, root, step, k + h, j) == DftSum(x, root, step, k, j)
  {
    hide Mul, Add, Power;
    if j > 0 {
      Periodic(x, root, step, h, k, j - 1);
      var i := j - 1;
      assert step * i * (k + h) == step * i * k + i * (step * h);
      PowerAdd(root, step * i * k, i * (step * h));
      PowerOne(root, step * h, i);
      MulUnits(Power(root, step * i * k));
    }
  }

  /** The butterfly: both halves of the spectrum from the transforms of evens and odds. */
  lemma Butterfly(x: seq<Complex>, e: seq<Complex>, o: seq<Complex>, root: Complex, m: nat, h: nat, k: nat)
    requires |e| == |o| == h && |x| == 2 * h
    requires forall i | 0 <= i < h :: e[i] == x[2 * i] && o[i] == x[2 * i + 1]
    requires Power(root, (2 * m) * h) == MINUS_ONE
    ensures Dft(x, root, 2 * m, k)
         == Add(Dft(e, root, 4 * m, k), Mul(Power(root, 2 * m * k), Dft(o, root, 4 * m, k)))
    ensures Dft(x, root, 2 * m, k + h)
         == Sub(Dft(e, root, 4 * m, k), Mul(Power(root, 2 * m * k), Dft(o, root, 4 * m, k)))
  {
    hide Mul, Add, Sub, Power, DftSum;
    SplitSum(x, e, o, root, 2 * m, k, h);
    SplitSum(x, e, o, root, 2 * m, k + h, h);
    assert (4 * m) * h == (2 * m) * h + (2 * m) * h;
    PowerAdd(root, (2 * m) * h, (2 * m) * h);
    MulUnits(ONE);
    Periodic(e, root, 4 * m, h, k, h);
    Periodic(o, root, 4 * m, h, k, h);
    assert 2 * m * (k + h) == 2 * m * k + (2 * m) * h;
    PowerAdd(root, 2 * m * k, (2 * m) * h);
    MulMinusOne(Power(root, 2 * m * k), Dft(o, root, 4 * m, k), Dft(e, root, 4 * m, k));
  }

  /** Position `p` belongs to the stride of `m` from `off` below `n`. */
  ghost predicate OnStride(p: nat, off: nat, m: nat, n: nat) {
    m > 0 && p < n && p % m == off
  }

  ghost predicate Agree(s: seq<Complex>, t: seq<Complex>, off: nat, m: nat, count: nat)
    requires InRange(|s|, off, m, count) && |t| == |s|
  {
    forall j: nat | j < count :: s[Pos(off, m, j)] == t[Pos(off, m, j)]
  }

  /** `s` and `t` differ at most on the stride. */
  ghost predicate SameOff(s: seq<Complex>, t: seq<Complex>, off: nat, m: nat, n: nat) {
    |s| == |t| && forall p: nat | p < |s| && !OnStride(p, off, m, n) :: s[p] == t[p]
  }

  /** `s` holds on its stride the transform of `t`'s stride. */
  ghost predicate Transformed(s: seq<Complex>, t: seq<Complex>, root: Complex, off: nat, m: nat, count: nat)
    requires InRange(|s|, off, m, count) && |t| == |s|
  {
    forall k: nat | k < count :: s[Pos(off, m, k)] == Dft(Strided(t, off, m, count), root, 2 * m, k)
  }

  lemma PosFacts(off: nat, m: nat, count: nat, j: nat)
    requires off < m && j < count
    ensures Pos(off, m, j) < m * count && Pos(off, m, j) % m == off
  {
    MulMono(m, j + 1, m, count);
    assert m * (j + 1) == m * j + m;
    ModUnique(off + m * j, m, j, off);
  }

  lemma StrideInRange(len: nat, off: nat, m: nat, count: nat)
    requires off < m && m * count <= len
    ensures InRange(len, off, m, count)
  {
    forall j: nat | j < count ensures Pos(off, m, j) < len { PosFacts(off, m, count, j); }
  }

  /** The two sub-strides of a stride: even and odd positions. */
  lemma Halves(off: nat, m: nat, h: nat, n: nat, p: nat)
    requires off < m && n == m * (2 * h)
    ensures OnStride(p, off, 2 * m, n) ==> OnStride(p, off, m, n)
    ensures OnStride(p, off + m, 2 * m, n) ==> OnStride(p, off, m, n)
    ensures !(OnStride(p, off, 2 * m, n) && OnStride(p, off + m, 2 * m, n))
  {
    var q, r := p / (2 * m), p % (2 * m);
    assert p == m * (2 * q) + r;
    if r == off { ModUnique(p, m, 2 * q, off); }
    if r == off + m { assert p == m * (2 * q + 1) + off; ModUnique(p, m, 2 * q + 1, off); }
  }

  lemma PosInjective(off: nat, m: nat)
    requires m > 0
    ensures forall j: nat, k: nat | j < k :: Pos(off, m, j) != Pos(off, m, k)
  {
    forall j: nat, k: nat | j < k ensures Pos(off, m, j) != Pos(off, m, k) {
      MulAtLeast(m, k - j);
      assert m * k - m * j == m * (k - j);
    }
  }

  /** Where one turn of the combining loop reads and writes. */
  lemma LoopIndices(off: nat, m: nat, h: nat, n: nat, i: nat, k: nat)
    requires off < m && n == m * (2 * h) && i == 2 * m * k && i < n
    ensures k < h && i + 2 * m == 2 * m * (k + 1)
    ensures off + i == Pos(off, 2 * m, k) && off + i + m == Pos(off + m, 2 * m, k)
    ensures off + i / 2 == Pos(off, m, k) && off + (i + n) / 2 == Pos(off, m, k + h)
    ensures OnStride(Pos(off, m, k), off, m, n) && OnStride(Pos(off, m, k + h), off, m, n)
  {
    hide OnStride;
    var a, b := m * k, m * h;
    assert i == 2 * a && n == 2 * b;
    assert k < h by { if k >= h { MulMono(m, h, m, k); } }
    assert m * (k + h) == a + b && 2 * m * (k + 1) == 2 * a + 2 * m;
    OnStridePos(off, m, h, n, k);
  }

  lemma OnStridePos(off: nat, m: nat, h: nat, n: nat, k: nat)
    requires off < m && n == m * (2 * h) && k < h
    ensures OnStride(Pos(off, m, k), off, m, n) && OnStride(Pos(off, m, k + h), off, m, n)
  {
    PosFacts(off, m, 2 * h, k);
    PosFacts(off, m, 2 * h, k + h);
  }

  lemma EndOfLoop(m: nat, h: nat, k: nat)
    requires m > 0 && m * (2 * h) <= 2 * m * k
    ensures h <= k
  {
    if k < h { MulMono(2 * m, k + 1, 2 * m, h); }
  }

  /** `d` holds at positions `j` and `j + h` of its stride the butterfly of `t`'s half spectra at `j`. */
  ghost predicate Pair(d: seq<Complex>, t: seq<Complex>, root: Complex, off: nat, m: nat, h: nat, j: nat)
    requires |d| == |t| && j < h
    requires InRange(|d|, off, m, 2 * h) && InRange(|d|, off, 2 * m, h) && InRange(|d|, off + m, 2 * m, h)
  {
    var v, x := t[Pos(off, 2 * m, j)], Mul(Power(root, 2 * m * j), t[Pos(off + m, 2 * m, j)]);
    d[Pos(off, m, j)] == Add(v, x) && d[Pos(off, m, j + h)] == Sub(v, x)
  }

  ghost predicate Butterflied(d: seq<Complex>, t: seq<Complex>, root: Complex, off: nat, m: nat, h: nat, k: nat)
    requires |d| == |t| && k <= h
    requires InRange(|d|, off, m, 2 * h) && InRange(|d|, off, 2 * m, h) && InRange(|d|, off + m, 2 * m, h)
  {
    forall j: nat | j < k :: Pair(d, t, root, off, m, h, j)
  }

  lemma NoButterflies(d: seq<Complex>, t: seq<Complex>, root: Complex, off: nat, m: nat, h: nat)
    requires |d| == |t|
    requires InRange(|d|, off, m, 2 * h) && InRange(|d|, off, 2 * m, h) && InRange(|d|, off + m, 2 * m, h)
    ensures Butterflied(d, t, root, off, m, h, 0)
  {}

  /** Writing the pair at `k` keeps the earlier pairs. */
  lemma PairKept(d: seq<Complex>, d': seq<Complex>, t: seq<Complex>, root: Complex,
                 off: nat, m: nat, h: nat, j: nat, k: nat)
    requires m > 0 && |d| == |d'| == |t| && j < k < h
    requires InRange(|d|, off, m, 2 * h) && InRange(|d|, off, 2 * m, h) && InRange(|d|, off + m, 2 * m, h)
    requires Pair(d, t, root, off, m, h, j)
    requires forall p: nat | p < |d| && p != Pos(off, m, k) && p != Pos(off, m, k + h) :: d'[p] == d[p]
    ensures Pair(d', t, root, off, m, h, j)
  {
    hide Add, Sub, Mul, Power, Pos;
    PosInjective(off, m);
    assert d'[Pos(off, m, j)] == d[Pos(off, m, j)];
    assert d'[Pos(off, m, j + h)] == d[Pos(off, m, j + h)];
  }

  lemma ButterflyStep(d: seq<Complex>, d': seq<Complex>, t: seq<Complex>, root: Complex,
                      off: nat, m: nat, h: nat, n: nat, i: nat, k: nat)
    requires off < m && n == m * (2 * h) <= |d| && i == 2 * m * k && i < n
    requires |d| == |d'| == |t| && k < h
    requires InRange(|d|, off, m, 2 * h) && InRange(|d|, off, 2 * m, h) && InRange(|d|, off + m, 2 * m, h)
    requires Butterflied(d, t, root, off, m, h, k) && Pair(d', t, root, off, m, h, k)
    requires forall p: nat | p < |d| && p != Pos(off, m, k) && p != Pos(off, m, k + h) :: d'[p] == d[p]
    ensures Butterflied(d', t, root, off, m, h, k + 1)
    ensures SameOff(d', d, off, m, n)
  {
    hide Pair, Pos, OnStride, InRange;
    LoopIndices(off, m, h, n, i, k);
    forall j: nat | j < k ensures Pair(d', t, root, off, m, h, j) { PairKept(d, d', t, root, off, m, h, j, k); }
  }

  /** The combining loop of `fft_partial`. */
  method Combine(data: array<Complex>, tmp: array<Complex>, off: nat, n: nat, m: nat, root: Complex, ghost h: nat)
    requires data != tmp && data.Length == tmp.Length >= n
    requires off < m && n == m * (2 * h)
    requires InRange(data.Length, off, m, 2 * h)
    requires InRange(data.Length, off, 2 * m, h) && InRange(data.Length, off + m, 2 * m, h)
    modifies data
    ensures Butterflied(data[..], tmp[..], root, off, m, h, h)
    ensures SameOff(data[..], old(data[..]), off, m, n)
  {
    hide Add, Sub, Mul, Power, Pos, OnStride, SameOff, Butterflied;
    var m2 := m * 2;
    SameOffRefl(data[..], data[..], off, m, n);
    NoButterflies(data[..], tmp[..], root, off, m, h);
    var i := 0;
    ghost var k := 0;
    while i < n
      invariant 0 <= k <= h && i == 2 * m * k
      invariant tmp[..] == old(tmp[..])
      invariant Butterflied(data[..], tmp[..], root, off, m, h, k)
      invariant SameOff(data[..], old(data[..]), off, m, n)
      decreases n - i
    {
      LoopIndices(off, m, h, n, i, k);
      ghost var d := data[..];
      var v := tmp[off + i];
      var t := Mul(Power(root, i), tmp[off + i + m]);
      data[off + i / 2] := Add(v, t);
      data[off + (i + n) / 2] := Sub(v, t);
      assert Pos(off, m, k) != Pos(off, m, k + h) by { PosInjective(off, m); }
      ButterflyStep(d, data[..], tmp[..], root, off, m, h, n, i, k);
      SameOffTrans(old(data[..]), d, data[..], off, m, n);
      i := i + m2;
      k := k + 1;
    }
    EndOfLoop(m, h, k);
  }

  /** Every point of a sub-stride lies on the stride; the two sub-strides do not meet. */
  lemma SubStride(off: nat, m: nat, h: nat, n: nat, k: nat)
    requires off < m && n == m * (2 * h) && k < h
    ensures Pos(off, 2 * m, k) == Pos(off, m, 2 * k) && Pos(off + m, 2 * m, k) == Pos(off, m, 2 * k + 1)
    ensures !OnStride(Pos(off, 2 * m, k), off + m, 2 * m, n)
    ensures !OnStride(Pos(off + m, 2 * m, k), off, 2 * m, n)
  {
    PosFacts(off, 2 * m, h, k);
    PosFacts(off + m, 2 * m, h, k);
    assert 2 * m * k == m * (2 * k) && m * (2 * k + 1) == m * (2 * k) + m;
  }

  lemma SubAgree(s: seq<Complex>, t: seq<Complex>, off: nat, m: nat, h: nat, n: nat)
    requires off < m && n == m * (2 * h) && |s| == |t|
    requires InRange(|s|, off, m, 2 * h) && InRange(|s|, off, 2 * m, h) && InRange(|s|, off + m, 2 * m, h)
    requires Agree(s, t, off, m, 2 * h)
    ensures Agree(s, t, off, 2 * m, h) && Agree(s, t, off + m, 2 * m, h)
  {
    hide Pos;
    var odd, m2 := off + m, 2 * m;
    forall j: nat | j < h ensures s[Pos(off, m2, j)] == t[Pos(off, m2, j)] { SubStride(off, m, h, n, j); }
    forall j: nat | j < h ensures s[Pos(odd, m2, j)] == t[Pos(odd, m2, j)] { SubStride(off, m, h, n, j); }
  }

  lemma OffAgree(s: seq<Complex>, t: seq<Complex>, off: nat, m: nat, h: nat, n: nat)
    requires off < m && n == m * (2 * h) && |s| == |t|
    requires InRange(|s|, off, 2 * m, h) && InRange(|s|, off + m, 2 * m, h)
    ensures SameOff(s, t, off, 2 * m, n) ==> Agree(s, t, off + m, 2 * m, h)
    ensures SameOff(s, t, off + m, 2 * m, n) ==> Agree(s, t, off, 2 * m, h)
  {
    hide Pos, OnStride;
    var odd, m2 := off + m, 2 * m;
    forall j: nat | j < h && SameOff(s, t, off, m2, n) ensures s[Pos(odd, m2, j)] == t[Pos(odd, m2, j)] {
      SubStride(off, m, h, n, j);
    }
    forall j: nat | j < h && SameOff(s, t, odd, m2, n) ensures s[Pos(off, m2, j)] == t[Pos(off, m2, j)] {
      SubStride(off, m, h, n, j);
    }
  }

  lemma StridedCongruent(s: seq<Complex>, t: seq<Complex>, off: nat, m: nat, count: nat)
    requires |s| == |t| && InRange(|s|, off, m, count) && Agree(s, t, off, m, count)
    ensures Strided(s, off, m, count) == Strided(t, off, m, count)
  {}

  /** What two recursive calls leave in `tmp`, in terms of the data before them. */
  lemma AfterRecursion(d0: seq<Complex>, t0: seq<Complex>, t1: seq<Complex>, t2: seq<Complex>,
                       root: Complex, off: nat, m: nat, h: nat, n: nat)
    requires off < m && n == m * (2 * h)
    requires |d0| == |t0| == |t1| == |t2| >= n
    requires InRange(|d0|, off, m, 2 * h) && InRange(|d0|, off, 2 * m, h) && InRange(|d0|, off + m, 2 * m, h)
    requires Agree(d0, t0, off, m, 2 * h)
    requires Transformed(t1, t0, root, off, 2 * m, h) && SameOff(t1, t0, off, 2 * m, n)
    requires Transformed(t2, t1, root, off + m, 2 * m, h) && SameOff(t2, t1, off + m, 2 * m, n)
    ensures Transformed(t2, d0, root, off, 2 * m, h) && Transformed(t2, d0, root, off + m, 2 * m, h)
  {
    hide Dft, OnStride, Pos, SameOff, Strided, InRange;
    SubAgree(d0, t0, off, m, h, n);
    OffAgree(t1, t0, off, m, h, n);
    OffAgree(t2, t1, off, m, h, n);
    StridedCongruent(d0, t0, off, 2 * m, h);
    assert Agree(t1, d0, off + m, 2 * m, h);
    StridedCongruent(t1, d0, off + m, 2 * m, h);
  }

  /** The butterfly on strided data. */
  lemma StridedButterfly(d0: seq<Complex>, root: Complex, off: nat, m: nat, h: nat, n: nat, k: nat)
    requires off < m && n == m * (2 * h) && k < h && Power(root, n) == MINUS_ONE
    requires InRange(|d0|, off, m, 2 * h) && InRange(|d0|, off, 2 * m, h) && InRange(|d0|, off + m, 2 * m, h)
    ensures var ev := Dft(Strided(d0, off, 2 * m, h), root, 4 * m, k);
            var od := Dft(Strided(d0, off + m, 2 * m, h), root, 4 * m, k);
      && Dft(Strided(d0, off, m, 2 * h), root, 2 * m, k) == Add(ev, Mul(Power(root, 2 * m * k), od))
      && Dft(Strided(d0, off, m, 2 * h), root, 2 * m, k + h) == Sub(ev, Mul(Power(root, 2 * m * k), od))
  {
    hide Dft, Pos, Power, Add, Sub, Mul;
    var x, e, o := Strided(d0, off, m, 2 * h), Strided(d0, off, 2 * m, h), Strided(d0, off + m, 2 * m, h);
    forall i: nat | i < h ensures e[i] == x[2 * i] && o[i] == x[2 * i + 1] { SubStride(off, m, h, n, i); }
    assert (2 * m) * h == n;
    Butterfly(x, e, o, root, m, h, k);
  }

  /** A one-point transform is the point itself. */
  lemma OnePoint(x: seq<Complex>, root: Complex, step: nat)
    requires |x| == 1
    ensures Dft(x, root, step, 0) == x[0]
  {
    assert DftSum(x, root, step, 0, 1) == Add(ZERO, Mul(x[0], Power(root, 0)));
    MulUnits(x[0]);
  }

  lemma SameOffLift(s: seq<Complex>, t: seq<Complex>, u: seq<Complex>, off: nat, m: nat, h: nat, n: nat)
    requires off < m && n == m * (2 * h) && |s| == |t| == |u|
    requires SameOff(t, s, off, 2 * m, n) && SameOff(u, t, off + m, 2 * m, n)
    ensures SameOff(u, s, off, m, n)
  {
    hide OnStride;
    forall p: nat | p < |s| && !OnStride(p, off, m, n) ensures u[p] == s[p] { Halves(off, m, h, n, p); }
  }

  lemma SameOffTrans(s: seq<Complex>, t: seq<Complex>, u: seq<Complex>, off: nat, m: nat, n: nat)
    requires SameOff(t, s, off, m, n) && SameOff(u, t, off, m, n)
    ensures SameOff(u, s, off, m, n)
  {}

  /** Butterflies of the two half spectra are the spectrum. */
  lemma Combined(d3: seq<Complex>, t2: seq<Complex>, d0: seq<Complex>, root: Complex, off: nat, m: nat, h: nat, n: nat)
    requires off < m && n == m * (2 * h) && Power(root, n) == MINUS_ONE && |d3| == |d0| == |t2|
    requires InRange(|d0|, off, m, 2 * h) && InRange(|d0|, off, 2 * m, h) && InRange(|d0|, off + m, 2 * m, h)
    requires Transformed(t2, d0, root, off, 2 * m, h) && Transformed(t2, d0, root, off + m, 2 * m, h)
    requires Butterflied(d3, t2, root, off, m, h, h)
    ensures Transformed(d3, d0, root, off, m, 2 * h)
  {
    hide Dft, Pos, Power, Add, Sub, Mul, Strided;
    forall k: nat | k < 2 * h ensures d3[Pos(off, m, k)] == Dft(Strided(d0, off, m, 2 * h), root, 2 * m, k) {
      var j := if k < h then k else k - h;
      StridedButterfly(d0, root, off, m, h, n, j);
      assert t2[Pos(off, 2 * m, j)] == Dft(Strided(d0, off, 2 * m, h), root, 4 * m, j);
      assert Pair(d3, t2, root, off, m, h, j);
    }
  }

  /** After the first recursive call the odd positions of both arrays are as before. */
  lemma StillAgree(d0: seq<Complex>, t0: seq<Complex>, d1: seq<Complex>, t1: seq<Complex>,
                   off: nat, m: nat, h: nat, n: nat)
    requires off < m && n == m * (2 * h) && |d0| == |t0| == |d1| == |t1|
    requires InRange(|d0|, off, 2 * m, h) && InRange(|d0|, off + m, 2 * m, h)
    requires Agree(d0, t0, off + m, 2 * m, h)
    requires SameOff(d1, d0, off, 2 * m, n) && SameOff(t1, t0, off, 2 * m, n)
    ensures Agree(t1, d1, off + m, 2 * m, h)
  {
    hide Pos, OnStride, SameOff;
    OffAgree(d1, d0, off, m, h, n);
    OffAgree(t1, t0, off, m, h, n);
  }

  lemma BaseCase(d0: seq<Complex>, root: Complex, off: nat, m: nat)
    requires InRange(|d0|, off, m, 1)
    ensures Transformed(d0, d0, root, off, m, 1)
  {
    OnePoint(Strided(d0, off, m, 1), root, 2 * m);
  }

  lemma OneStrideLeft(m: nat, n: nat, d: nat)
    requires m > 0 && n == m * Pow2(d)
    ensures m < n <==> d > 0
  {
    if d > 0 { assert n == m * Pow2(d - 1) + m * Pow2(d - 1); MulAtLeast(m, Pow2(d - 1)); }
  }

  /**
    `fft_partial` on the pointers `data + off` and `tmp + off`. On the stride it leaves in `data`
    the transform of what `data` held there, and off the stride it changes nothing in either array.
   */
  method FftPartial(data: array<Complex>, tmp: array<Complex>, off: nat, n: nat, m: nat, root: Complex, ghost d: nat)
    requires data != tmp && data.Length == tmp.Length >= n
    requires off < m && n == m * Pow2(d) && Power(root, n) == MINUS_ONE
    requires InRange(data.Length, off, m, Pow2(d)) && Agree(data[..], tmp[..], off, m, Pow2(d))
    modifies data, tmp
    ensures Transformed(data[..], old(data[..]), root, off, m, Pow2(d))
    ensures SameOff(data[..], old(data[..]), off, m, n) && SameOff(tmp[..], old(tmp[..]), off, m, n)
    decreases d
  {
    hide Dft, OnStride, Pos, Power, Strided, Agree, Transformed, SameOff, InRange, Butterflied, Pair;
    ghost var d0, t0 := data[..], tmp[..];
    OneStrideLeft(m, n, d);
    if m < n {
      var m2 := m * 2;
      ghost var h := Pow2(d - 1);
      assert n == m * (2 * h) == m2 * h;
      StrideInRange(data.Length, off, 2 * m, h);
      StrideInRange(data.Length, off + m, 2 * m, h);
      SubAgree(d0, t0, off, m, h, n);
      AgreeSym(d0, t0, off, 2 * m, h);
      FftPartial(tmp, data, off, n, m2, root, d - 1);
      ghost var d1, t1 := data[..], tmp[..];
      StillAgree(d0, t0, d1, t1, off, m, h, n);
      FftPartial(tmp, data, off + m, n, m2, root, d - 1);
      ghost var d2, t2 := data[..], tmp[..];
      AfterRecursion(d0, t0, t1, t2, root, off, m, h, n);
      SameOffLift(d0, d1, d2, off, m, h, n);
      SameOffLift(t0, t1, t2, off, m, h, n);
      Combine(data, tmp, off, n, m, root, h);
      assert tmp[..] == t2;
      SameOffTrans(d0, d2, data[..], off, m, n);
      Combined(data[..], t2, d0, root, off, m, h, n);
    } else {
      BaseCase(d0, root, off, m);
      SameOffRefl(d0, t0, off, m, n);
    }
  }

  lemma AgreeSym(s: seq<Complex>, t: seq<Complex>, off: nat, m: nat, count: nat)
    requires |s| == |t| && InRange(|s|, off, m, count) && Agree(s, t, off, m, count)
    ensures Agree(t, s, off, m, count)
  {}

  lemma SameOffRefl(s: seq<Complex>, t: seq<Complex>, off: nat, m: nat, n: nat)
    ensures SameOff(s, s, off, m, n) && SameOff(t, t, off, m, n)
  {}

  /** `x` is zero but for the value `c` at place `j`. */
  ghost predicate Impulse(x: seq<Complex>, j: nat, c: Complex) {
    j < |x| && x[j] == c && forall i | 0 <= i < |x| && i != j :: x[i] == ZERO
  }

  lemma {:induction false} ImpulseSum(x: seq<Complex>, j: nat, c: Complex, root: Complex, k: nat, m: nat)
    requires Impulse(x, j, c) && m <= |x|
    ensures DftSum(x, root, 2, k, m) == if j < m then Mul(c, Power(root, 2 * j * k)) else ZERO
  {
    hide Mul, Power;
    if m > 0 {
      ImpulseSum(x, j, c, root, k, m - 1);
      ZeroTerm(Power(root, 2 * (m - 1) * k), Mul(c, Power(root, 2 * j * k)));
      if m - 1 == j { assert 2 * (m - 1) * k == 2 * j * k; }
    }
  }

  lemma ZeroTerm(t: Complex, v: Complex)
    ensures Mul(ZERO, t) == ZERO && Add(ZERO, v) == v && Add(v, ZERO) == v
  {}

  /**
    An impulse at the start becomes a constant; from one place later each output is the one
    before times the square of `root`.
   */
  lemma ImpulseResponse(x: seq<Complex>, c: Complex, root: Complex, k: nat)
    ensures Impulse(x, 0, c) ==> Dft(x, root, 2, k) == c
    ensures Impulse(x, 1, c) ==> Dft(x, root, 2, 0) == c
    ensures Impulse(x, 1, c) ==> Dft(x, root, 2, k + 1) == Mul(Mul(root, root), Dft(x, root, 2, k))
  {
    hide Mul;
    MulUnits(c);
    if Impulse(x, 0, c) { ImpulseSum(x, 0, c, root, k, |x|); }
    if Impulse(x, 1, c) {
      ImpulseSum(x, 1, c, root, 0, |x|);
      ImpulseSum(x, 1, c, root, k, |x|);
      ImpulseSum(x, 1, c, root, k + 1, |x|);
      assert 2 * 1 * (k + 1) == 2 * k + 2;
      PowerTwoMore(root, 2 * k);
      var p, q := Power(root, 2 * k), Mul(root, root);
      MulAssoc(c, q, p);
      MulComm(c, q);
      MulAssoc(q, c, p);
    }
  }

  lemma PowerTwoMore(root: Complex, e: nat)
    ensures Power(root, e + 2) == Mul(Mul(root, root), Power(root, e))
  {
    hide Mul;
    MulAssoc(root, root, Power(root, e));
  }

  /** What the twiddle factor is at the first powers. */
  lemma Twiddles(root: Complex)
    ensures Power(root, 0) == ONE && Power(root, 1) == root && Power(root, 2) == Mul(root, root)
  {
    hide Mul;
    MulUnits(root);
  }

  /** The four powers of the twiddle factor of a two-point transform, a quarter turn clockwise. */
  lemma QuarterTurns()
    ensures var r := Complex(0.0, -1.0);
      Power(r, 1) == r && Power(r, 2) == MINUS_ONE && Power(r, 3) == Complex(0.0, 1.0) && Power(r, 4) == ONE
  {
    hide Mul, Power;
    var r := Complex(0.0, -1.0);
    UnitProducts();
    QuarterProducts();
    Twiddles(r);
    PowerAdd(r, 1, 2);
    PowerAdd(r, 2, 2);
  }

  lemma UnitProducts()
    ensures Mul(MINUS_ONE, ONE) == MINUS_ONE && Mul(MINUS_ONE, MINUS_ONE) == ONE
  {}

  lemma QuarterProducts()
    ensures Mul(Complex(0.0, -1.0), Complex(0.0, -1.0)) == MINUS_ONE
    ensures Mul(Complex(0.0, -1.0), MINUS_ONE) == I
  {}

  lemma {:induction false} PowerSquare(root: Complex, e: nat)
    ensures Power(Mul(root, root), e) == Power(root, 2 * e)
  {
    hide Mul;
    if e > 0 {
      PowerSquare(root, e - 1);
      PowerTwoMore(root, 2 * e - 2);
    }
  }

  lemma {:induction false} PowerTimes(root: Complex, a: nat, b: nat)
    ensures Power(Power(root, a), b) == Power(root, a * b)
  {
    hide Mul;
    if b > 0 {
      PowerTimes(root, a, b - 1);
      PowerAdd(root, a, a * (b - 1));
      assert a * b == a + a * (b - 1);
    }
  }

  lemma {:induction false} MinusOnePower(e: nat)
    ensures Power(MINUS_ONE, e) == if e % 2 == 0 then ONE else MINUS_ONE
  {
    hide Mul;
    UnitProducts();
    if e > 0 { MinusOnePower(e - 1); }
  }

  lemma {:induction false} OnePower(e: nat)
    ensures Power(ONE, e) == ONE
  {
    MulUnits(ONE);
    hide Mul;
    if e > 0 { OnePower(e - 1); }
  }

  /** A root with `root^n == -1`, for `n` a power of two, is back at 1 only after a multiple of `2 n`. */
  lemma {:induction false} FullTurn(root: Complex, d: nat, e: nat) returns (q: nat)
    requires Power(root, Pow2(d)) == MINUS_ONE && Power(root, 2 * e) == ONE
    ensures e == Pow2(d) * q
    decreases d
  {
    hide Mul, Power;
    if d == 0 {
      q := e;
      assert Pow2(0) == 1;
    } else {
      var h := Pow2(d - 1);
      PowerTimes(root, 2 * e, h);
      OnePower(h);
      PowerTimes(root, Pow2(d), e);
      MinusOnePower(e);
      assert 2 * e * h == Pow2(d) * e;
      assert e % 2 == 0;
      PowerSquare(root, h);
      PowerSquare(root, e);
      var f := FullTurn(Mul(root, root), d - 1, e / 2);
      q := f;
    }
  }

  /** The sum of `m` powers of the `e`-th power of the square of `root`. */
  ghost function Geo(root: Complex, e: nat, m: nat): Complex {
    if m == 0 then ZERO else Add(Geo(root, e, m - 1), Power(root, 2 * e * (m - 1)))
  }

  lemma {:induction false} GeoTelescopes(root: Complex, e: nat, m: nat)
    ensures Mul(Sub(Power(root, 2 * e), ONE), Geo(root, e, m)) == Sub(Power(root, 2 * e * m), ONE)
  {
    hide Mul, Power;
    var a := Sub(Power(root, 2 * e), ONE);
    if m == 0 {
      MulUnits(a);
      Twiddles(root);
    } else {
      GeoTelescopes(root, e, m - 1);
      var p := Power(root, 2 * e * (m - 1));
      MulAdd(a, Geo(root, e, m - 1), p);
      PowerAdd(root, 2 * e, 2 * e * (m - 1));
      assert 2 * e + 2 * e * (m - 1) == 2 * e * m;
      Telescope(Power(root, 2 * e), p);
    }
  }

  lemma Telescope(a: Complex, p: Complex)
    ensures Add(Sub(p, ONE), Mul(Sub(a, ONE), p)) == Sub(Mul(a, p), ONE)
  {}

  lemma NoZeroDivisors(a: Complex, b: Complex)
    requires Mul(a, b) == ZERO && a != ZERO
    ensures b == ZERO
  {
    var n := a.re * a.re + a.im * a.im;
    SumOfSquares(a.re, a.im, n);
    assert n * b.re == a.re * (a.re * b.re - a.im * b.im) + a.im * (a.re * b.im + a.im * b.re);
    assert n * b.im == a.re * (a.re * b.im + a.im * b.re) - a.im * (a.re * b.re - a.im * b.im);
    Cancel(n, b.re);
    Cancel(n, b.im);
  }

  lemma SumOfSquares(x: real, y: real, n: real)
    requires (x != 0.0 || y != 0.0) && n == x * x + y * y
    ensures n > 0.0
  {
    var a := Square(x);
    var b := Square(y);
  }

  lemma Square(x: real) returns (a: real)
    ensures a == x * x && a >= 0.0 && (x != 0.0 ==> a > 0.0)
  {
    a := x * x;
    if x != 0.0 {
      var y := 1.0 / x;
      assert x * y == 1.0;
      Regroup(x, x, y);
    }
  }

  lemma Regroup(x: real, y: real, z: real)
    ensures x * (y * z) == (x * y) * z
  {}

  lemma Cancel(n: real, x: real)
    requires n > 0.0 && n * x == 0.0
    ensures x == 0.0
  {}

  function Real(n: nat): Complex {
    Complex(n as real, 0.0)
  }

  /** Over a full turn the powers cancel, unless all of them are 1. */
  lemma GeoFull(root: Complex, d: nat, e: nat)
    requires Power(root, Pow2(d)) == MINUS_ONE
    ensures Geo(root, e, Pow2(d)) == if e % Pow2(d) == 0 then Real(Pow2(d)) else ZERO
  {
    hide Mul, Power, Pow2;
    var n := Pow2(d);
    Turn(root, n);
    if e % n == 0 {
      assert e == n * (e / n);
      GeoOnes(root, n, e / n, n);
    } else {
      GeoTelescopes(root, e, n);
      PowerOne(root, 2 * n, e);
      assert 2 * e * n == e * (2 * n);
      var a := Sub(Power(root, 2 * e), ONE);
      if a == ZERO {
        var q := FullTurn(root, d, e);
        ModUnique(e, n, q, 0);
      }
      NoZeroDivisors(a, Geo(root, e, n));
    }
  }

  lemma Turn(root: Complex, n: nat)
    requires Power(root, n) == MINUS_ONE
    ensures Power(root, 2 * n) == ONE
  {
    PowerAdd(root, n, n);
  }

  lemma {:induction false} GeoOnes(root: Complex, n: nat, q: nat, m: nat)
    requires Power(root, 2 * n) == ONE
    ensures Geo(root, n * q, m) == Real(m)
  {
    hide Mul, Power;
    if m > 0 {
      GeoOnes(root, n, q, m - 1);
      PowerOne(root, 2 * n, q * (m - 1));
      assert 2 * (n * q) * (m - 1) == q * (m - 1) * (2 * n);
    }
  }

  /** Each of the first `i` inputs with the `m` powers that a double sum gives it. */
  ghost function Rows(x: seq<Complex>, root: Complex, k: nat, m: nat, i: nat): Complex
    requires i <= |x|
  {
    if i == 0 then ZERO
    else Add(Rows(x, root, k, m, i - 1), Mul(x[i - 1], Geo(root, i - 1 + k, m)))
  }

  lemma {:induction false} RowsNone(x: seq<Complex>, root: Complex, k: nat, i: nat)
    requires i <= |x|
    ensures Rows(x, root, k, 0, i) == ZERO
  {
    if i > 0 { RowsNone(x, root, k, i - 1); }
  }

  lemma {:induction false} OneMoreColumn(x: seq<Complex>, root: Complex, k: nat, m: nat, i: nat)
    requires i <= |x|
    ensures Add(Rows(x, root, k, m, i), Mul(DftSum(x, root, 2, m, i), Power(root, 2 * m * k)))
         == Rows(x, root, k, m + 1, i)
  {
    hide Mul, Power, Add, Geo;
    var p := Power(root, 2 * m * k);
    if i == 0 {
      ZeroTerm(p, ZERO);
    } else {
      hide Rows, DftSum;
      OneMoreColumn(x, root, k, m, i - 1);
      Unfolded(x, root, k, m, i);
      Unfolded(x, root, k, m + 1, i);
      GeoMore(root, i - 1 + k, m);
      Exponents(i - 1, k, m);
      PowerAdd(root, 2 * (i - 1) * m, 2 * m * k);
      ColumnAlgebra(Rows(x, root, k, m, i - 1), DftSum(x, root, 2, m, i - 1), x[i - 1],
                    Power(root, 2 * (i - 1) * m), p, Geo(root, i - 1 + k, m));
    }
  }

  lemma Exponents(j: nat, k: nat, m: nat)
    ensures 2 * j * m + 2 * m * k == 2 * (j + k) * m
  {}

  lemma GeoMore(root: Complex, e: nat, m: nat)
    ensures Geo(root, e, m + 1) == Add(Geo(root, e, m), Power(root, 2 * e * m))
  {
    hide Mul, Power, Add;
  }

  lemma Unfolded(x: seq<Complex>, root: Complex, k: nat, m: nat, i: nat)
    requires 0 < i <= |x|
    ensures Rows(x, root, k, m, i) == Add(Rows(x, root, k, m, i - 1), Mul(x[i - 1], Geo(root, i - 1 + k, m)))
    ensures DftSum(x, root, 2, m, i) == Add(DftSum(x, root, 2, m, i - 1), Mul(x[i - 1], Power(root, 2 * (i - 1) * m)))
  {
    hide Mul, Power, Add;
  }

  lemma ColumnAlgebra(r: Complex, s: Complex, c: Complex, t: Complex, p: Complex, g: Complex)
    ensures Add(Add(r, Mul(c, g)), Mul(Add(s, Mul(c, t)), p)) == Add(Add(r, Mul(s, p)), Mul(c, Add(g, Mul(t, p))))
  {}

  lemma {:induction false} DoubleSum(x: seq<Complex>, y: seq<Complex>, root: Complex, k: nat, m: nat)
    requires m <= |y| && forall j | 0 <= j < |y| :: y[j] == Dft(x, root, 2, j)
    ensures DftSum(y, root, 2, k, m) == Rows(x, root, k, m, |x|)
  {
    hide Mul, Power;
    if m == 0 {
      RowsNone(x, root, k, |x|);
    } else {
      DoubleSum(x, y, root, k, m - 1);
      OneMoreColumn(x, root, k, m - 1, |x|);
    }
  }

  /** The place opposite to `k` among `n`. */
  function Opposite(n: nat, k: nat): nat
    requires k < n
  {
    if k == 0 then 0 else n - k
  }

  lemma OppositeIff(n: nat, k: nat, j: nat)
    requires k < n && j < n
    ensures Opposite(n, k) < n && ((j + k) % n == 0 <==> j == Opposite(n, k))
  {
    if j + k < n { ModUnique(j + k, n, 0, j + k); } else { ModUnique(j + k, n, 1, j + k - n); }
  }

  /** Of all rows only that of the input opposite to `k` is left. */
  lemma {:induction false} RowLeft(x: seq<Complex>, root: Complex, d: nat, k: nat, o: nat, i: nat)
    requires |x| == Pow2(d) && Power(root, Pow2(d)) == MINUS_ONE
    requires k < |x| && o == Opposite(|x|, k) < |x| && i <= |x|
    ensures Rows(x, root, k, |x|, i) == if o < i then Mul(Real(|x|), x[o]) else ZERO
  {
    hide Mul, Power, Pow2, Geo, Add, Real, DftSum, Opposite;
    if i > 0 {
      RowLeft(x, root, d, k, o, i - 1);
      FullRow(x[i - 1], root, d, i - 1 + k);
      OppositeIff(|x|, k, i - 1);
      ZeroTerm(ONE, Mul(Real(|x|), x[o]));
      ZeroTerm(ONE, ZERO);
    }
  }

  lemma FullRow(c: Complex, root: Complex, d: nat, e: nat)
    requires Power(root, Pow2(d)) == MINUS_ONE
    ensures Mul(c, Geo(root, e, Pow2(d))) == if e % Pow2(d) == 0 then Mul(Real(Pow2(d)), c) else ZERO
  {
    hide Mul, Power, Pow2, Geo, Real;
    GeoFull(root, d, e);
    MulComm(c, Real(Pow2(d)));
    MulUnits(c);
  }

  /**
    The transform is its own inverse up to order and scale: transforming twice gives every input
    `n` times, at the opposite place.
   */
  lemma TransformTwice(x: seq<Complex>, y: seq<Complex>, root: Complex, d: nat, k: nat)
    requires |x| == |y| == Pow2(d) && Power(root, Pow2(d)) == MINUS_ONE && k < |x|
    requires forall j | 0 <= j < |y| :: y[j] == Dft(x, root, 2, j)
    ensures Opposite(|x|, k) < |x| && Dft(y, root, 2, k) == Mul(Real(|x|), x[Opposite(|x|, k)])
  {
    hide Mul, Power, Pow2;
    DoubleSum(x, y, root, k, |y|);
    OppositeIff(|x|, k, 0);
    RowLeft(x, root, d, k, Opposite(|x|, k), |x|);
  }

  /** `stress_cpu_fft`: copying the buffer and transforming it gives its DFT. */
  method Transform(buf: array<Complex>, root: Complex, ghost d: nat)
    requires buf.Length == Pow2(d) && Power(root, buf.Length) == MINUS_ONE
    modifies buf
    ensures forall k | 0 <= k < buf.Length :: buf[k] == Dft(old(buf[..]), root, 2, k)
    ensures forall c | Impulse(old(buf[..]), 1, c) ::
      buf[0] == c && forall k | 0 <= k < buf.Length - 1 :: buf[k + 1] == Mul(Mul(root, root), buf[k])
  {
    hide Dft, Power, Mul;
    var n := buf.Length;
    var tmp := new Complex[n];
    var i := 0;
    while i < n
      invariant 0 <= i <= n && forall j | 0 <= j < i :: tmp[j] == buf[j]
      invariant buf[..] == old(buf[..])
    {
      tmp[i] := buf[i];
      i := i + 1;
    }
    assert buf[..] == tmp[..];
    ghost var b0 := buf[..];
    FftPartial(buf, tmp, 0, n, 1, root, d);
    assert Strided(b0, 0, 1, n) == b0;
    forall k | 0 <= k < n ensures buf[k] == Dft(b0, root, 2, k) { assert Pos(0, 1, k) == k; }
    forall c | Impulse(b0, 1, c)
      ensures buf[0] == c && forall k | 0 <= k < n - 1 :: buf[k + 1] == Mul(Mul(root, root), buf[k])
    {
      ImpulseResponse(b0, c, root, 0);
      forall k | 0 <= k < n - 1 ensures buf[k + 1] == Mul(Mul(root, root), buf[k]) {
        ImpulseResponse(b0, c, root, k);
      }
    }
  }
}
