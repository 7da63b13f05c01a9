/** The multiply-with-carry generator and its buffered 8- and 16-bit draws. */
module Mwc {
  import opened Basics
  import opened Bits
  import opened Stride

  const MULT_Z: nat := 36969
  const MULT_W: nat := 18000
  const HALF: nat := 0x1_0000
  const WORD: nat := 0x1_0000_0000

  /** One half of the generator: `a * (x & 65535) + (x >> 16)`. */
  function Step(a: nat, x: nat): nat {
    a * (x % HALF) + x / HALF
  }

  function Iterate(a: nat, x: nat, k: nat): nat {
    if k == 0 then x else Step(a, Iterate(a, x, k - 1))
  }

  /** The modulus of the half with multiplier `a`. */
  function Modulus(a: nat): int {
    a * HALF - 1
  }

  function HalfPower(k: nat): nat {
    if k == 0 then 1 else HALF * HalfPower(k - 1)
  }

  /** A step divides by 2^16 modulo the modulus. */
  lemma StepInverse(a: nat, x: nat)
    ensures HALF * Step(a, x) == x + Modulus(a) * (x % HALF)
  {
    var l, h := x % HALF, x / HALF;
    assert x == HALF * h + l;
    assert Modulus(a) * l == HALF * (a * l) - l;
  }

  /** After `k` steps: 2^(16 k) times the state is the seed, modulo `a 2^16 - 1`. */
  lemma {:induction false} Sequence(a: nat, x: nat, k: nat)
    requires a > 0
    ensures Divides(Modulus(a), HalfPower(k) * Iterate(a, x, k) - x)
  {
    var m := Modulus(a);
    if k == 0 {
      DividesIff(m, 0, 0);
    } else {
      Sequence(a, x, k - 1);
      var y, p := Iterate(a, x, k - 1), HalfPower(k - 1);
      StepInverse(a, y);
      var l := y % HALF;
      assert HalfPower(k) * Iterate(a, x, k) - x == (p * y - x) * 1 + m * (p * l) by {
        SequenceAlgebra(p, y, m, l, Step(a, y));
      }
      DividesIff(m, m, 1);
      DividesCombination(m, p * y - x, m, 1, p * l);
    }
  }

  lemma SequenceAlgebra(p: nat, y: nat, m: int, l: nat, s: nat)
    requires HALF * s == y + m * l
    ensures (HALF * p) * s == p * y + m * (p * l)
  {
    assert (HALF * p) * s == p * (HALF * s);
    assert p * (y + m * l) == p * y + p * (m * l);
    assert p * (m * l) == m * (p * l);
  }

  /** No step from a 32-bit state leaves 32 bits. */
  lemma StepFits(a: nat, x: nat)
    requires a < HALF && x < WORD
    ensures Step(a, x) < WORD
  {
    MulMono(a, x % HALF, HALF - 1, HALF - 1);
  }

  /** A state strictly between 0 and the modulus stays there. */
  lemma StepStaysInside(a: nat, x: nat)
    requires a > 0 && 0 < x < Modulus(a)
    ensures 0 < Step(a, x) < Modulus(a)
  {
    var l, h := x % HALF, x / HALF;
    assert h < a;
    if l < HALF - 1 {
      MulMono(a, l, a, HALF - 2);
    } else {
      assert h < a - 1;
    }
    if l > 0 { MulMono(1, 1, a, l); }
  }

  lemma {:induction false} StaysInside(a: nat, x: nat, k: nat)
    requires a > 0 && 0 < x < Modulus(a)
    ensures 0 < Iterate(a, x, k) < Modulus(a)
  {
    if k > 0 {
      StaysInside(a, x, k - 1);
      StepStaysInside(a, Iterate(a, x, k - 1));
    }
  }

  /** The state before a step. */
  function Back(a: nat, y: nat): nat
    requires a > 0
  {
    HALF * (y % a) + y / a
  }

  /** A step permutes the states strictly between 0 and the modulus. */
  lemma StepPermutes(a: nat, x: nat)
    requires a > 0 && 0 < x < Modulus(a)
    ensures Back(a, Step(a, x)) == x
    ensures 0 < Back(a, x) < Modulus(a) && Step(a, Back(a, x)) == x
  {
    var l, h := x % HALF, x / HALF;
    assert h < a;
    ModUnique(a * l + h, a, l, h);
    Digits(a, x, x / a, x % a);
    ModUnique(Back(a, x), HALF, x % a, x / a);
  }

  lemma Digits(a: nat, x: nat, l: nat, h: nat)
    requires 0 < x < Modulus(a) && x == a * l + h && h < a
    ensures l < HALF && 0 < HALF * h + l < Modulus(a)
  {
    if l >= HALF { MulMono(a, HALF, a, l); }
    MulMono(HALF, h, HALF, a - 1);
  }

  lemma {:induction false} CancelSteps(a: nat, x: nat, i: nat, d: nat)
    requires a > 0 && 0 < x < Modulus(a) && Iterate(a, x, i + d) == Iterate(a, x, i)
    ensures Iterate(a, x, d) == x
    decreases i
  {
    hide Step;
    if i > 0 {
      StaysInside(a, x, i + d - 1);
      StaysInside(a, x, i - 1);
      StepPermutes(a, Iterate(a, x, i + d - 1));
      StepPermutes(a, Iterate(a, x, i - 1));
      CancelSteps(a, x, i - 1, d);
    }
  }

  /** The first `n` states from `x`. */
  ghost function Orbit(a: nat, x: nat, n: nat): set<nat> {
    if n == 0 then {} else Orbit(a, x, n - 1) + {Iterate(a, x, n - 1)}
  }

  lemma {:induction false} InOrbit(a: nat, x: nat, n: nat, y: nat) returns (i: nat)
    requires y in Orbit(a, x, n)
    ensures i < n && Iterate(a, x, i) == y
  {
    hide Iterate;
    if y == Iterate(a, x, n - 1) { i := n - 1; } else { i := InOrbit(a, x, n - 1, y); }
  }

  lemma {:induction false} OrbitSize(a: nat, x: nat, n: nat)
    requires a > 0 && 0 < x < Modulus(a) && forall t: nat | 0 < t < n :: Iterate(a, x, t) != x
    ensures |Orbit(a, x, n)| == n && Orbit(a, x, n) <= Below(Modulus(a)) - {0}
  {
    hide Iterate, Below;
    if n > 0 {
      OrbitSize(a, x, n - 1);
      var y := Iterate(a, x, n - 1);
      StaysInside(a, x, n - 1);
      if y in Orbit(a, x, n - 1) {
        var i := InOrbit(a, x, n - 1, y);
        CancelSteps(a, x, i, n - 1 - i);
      }
    }
  }

  /** So every such seed comes back, after fewer steps than the modulus. */
  lemma SeedComesBack(a: nat, x: nat) returns (k: nat)
    requires a > 0 && 0 < x < Modulus(a)
    ensures 0 < k < Modulus(a) && Iterate(a, x, k) == x
  {
    hide Iterate, Orbit, Below;
    var m: nat := Modulus(a);
    if forall t: nat | 0 < t < m :: Iterate(a, x, t) != x {
      OrbitSize(a, x, m);
      Fewer(Orbit(a, x, m), m);
      assert false;
    } else {
      k :| 0 < k < m && Iterate(a, x, k) == x;
    }
  }

  lemma Fewer(s: set<nat>, m: nat)
    requires s <= Below(m) - {0} && m > 0
    ensures |s| < m
  {
    assert Below(m) == s + (Below(m) - s);
    assert 0 in Below(m) - s;
  }

  /** A 32-bit state is stuck only at 0 and at the modulus, as `a - 1` and 65535 have no common factor. */
  lemma Stuck(a: nat, x: nat, u: int, v: int)
    requires 1 < a < HALF && x < WORD && (a - 1) * u + 65535 * v == 1
    ensures Step(a, x) == x <==> x == 0 || x == Modulus(a)
  {
    var l, h := x % HALF, x / HALF;
    assert x == HALF * h + l;
    if Step(a, x) == x {
      assert 65535 * h == (a - 1) * l;
      var q := u * h + v * l;
      StuckAlgebra(a - 1, h, l, u, v);
      assert l == 65535 * q;
      assert l == 0 || l == 65535;
    }
    if x == Modulus(a) { ModUnique(x, HALF, a - 1, HALF - 1); }
  }

  lemma StuckAlgebra(c: int, h: int, l: int, u: int, v: int)
    requires 65535 * h == c * l && c * u + 65535 * v == 1
    ensures l == 65535 * (u * h + v * l)
  {
    assert l == l * (c * u + 65535 * v);
    assert l * (c * u) == u * (c * l);
  }

  lemma StuckStates(x: nat)
    requires x < WORD
    ensures Step(MULT_Z, x) == x <==> x == 0 || x == Modulus(MULT_Z)
    ensures Step(MULT_W, x) == x <==> x == 0 || x == Modulus(MULT_W)
  {
    Stuck(MULT_Z, x, -3643, 2055);
    Stuck(MULT_W, x, 18704, -5137);
  }

  /** The generator with the words its narrow draws have saved. */
  datatype State = State(w: nat, z: nat, n8: nat, n16: nat, saved8: nat, saved16: nat)

  datatype Draw = D8 | D16 | D32 | D64

  function Advance(s: State): State {
    s.(z := Step(MULT_Z, s.z), w := Step(MULT_W, s.w))
  }

  /** The 32-bit word a state shows: `(z << 16) + w`. */
  function Shown(s: State): nat {
    (s.z * HALF + s.w) % WORD
  }

  function Next(s: State, d: Draw): State {
    match d
    case D32 => Advance(s)
    case D64 => Advance(Advance(s))
    case D16 =>
      if s.n16 > 0 then s.(n16 := s.n16 - 1, saved16 := s.saved16 / HALF)
      else var s1 := Advance(s); s1.(n16 := 1, saved16 := Shown(s1))
    case D8 =>
      if s.n8 > 0 then s.(n8 := s.n8 - 1, saved8 := s.saved8 / 256)
      else var s1 := Advance(s); s1.(n8 := 3, saved8 := Shown(s1))
  }

  /** What a draw returns; the high half of a 64-bit draw is drawn first. */
  function Output(s: State, d: Draw): nat {
    match d
    case D32 => Shown(Advance(s))
    case D64 => Shown(Advance(s)) * WORD + Shown(Advance(Advance(s)))
    case D16 => Next(s, D16).saved16 % HALF
    case D8 => Next(s, D8).saved8 % 256
  }

  function Run(s: State, ds: seq<Draw>): State {
    if ds == [] then s else Next(Run(s, ds[..|ds| - 1]), ds[|ds| - 1])
  }

  /** The outputs of the draws of kind `d`, in order. */
  ghost function Delivered(s: State, ds: seq<Draw>, d: Draw): seq<nat> {
    if ds == [] then []
    else
      var init, last := ds[..|ds| - 1], ds[|ds| - 1];
      Delivered(s, init, d) + if last == d then [Output(Run(s, init), d)] else []
  }

  /** The words a draw makes the generator produce, each named by the kind of the draw. */
  ghost function Fetches(s: State, d: Draw): seq<Draw> {
    match d
    case D32 => [D32]
    case D64 => [D64, D64]
    case D16 => if s.n16 > 0 then [] else [D16]
    case D8 => if s.n8 > 0 then [] else [D8]
  }

  /** The kinds of the draws for which the generator made words, one entry for each word made. */
  ghost function Owners(s: State, ds: seq<Draw>): seq<Draw> {
    if ds == [] then []
    else
      var init, last := ds[..|ds| - 1], ds[|ds| - 1];
      Owners(s, init) + Fetches(Run(s, init), last)
  }

  /** Word `j` that the generator makes from state `s`. */
  ghost function WordAt(s: State, j: nat): nat {
    (Iterate(MULT_Z, s.z, j + 1) * HALF + Iterate(MULT_W, s.w, j + 1)) % WORD
  }

  /** The parts that a draw of kind `d` cuts a word into, lowest first. */
  ghost function Parts(x: nat, d: Draw): seq<nat> {
    match d
    case D8 => [x % 256, x / 256 % 256, x / 256 / 256 % 256, x / 256 / 256 / 256 % 256]
    case D16 => [x % HALF, x / HALF % HALF]
    case D32 => [x]
    case D64 => [x]
  }

  /** The parts of the words made for draws of kind `d`. */
  ghost function Taken(s: State, owners: seq<Draw>, d: Draw): seq<nat> {
    if owners == [] then []
    else
      var j := |owners| - 1;
      Taken(s, owners[..j], d) + if owners[j] == d then Parts(WordAt(s, j), d) else []
  }

  /** The parts of the saved words not delivered yet. */
  ghost function Pending8(saved: nat, n: nat): seq<nat> {
    if n == 0 then [] else [saved / 256 % 256] + Pending8(saved / 256, n - 1)
  }

  ghost function Pending16(saved: nat, n: nat): seq<nat> {
    if n == 0 then [] else [saved / HALF % HALF] + Pending16(saved / HALF, n - 1)
  }

  lemma NextSteps(t: State, d: Draw, z: nat, w: nat, k: nat)
    requires t.z == Iterate(MULT_Z, z, k) && t.w == Iterate(MULT_W, w, k)
    ensures Next(t, d).z == Iterate(MULT_Z, z, k + |Fetches(t, d)|)
    ensures Next(t, d).w == Iterate(MULT_W, w, k + |Fetches(t, d)|)
  {
    hide Step, Shown;
  }

  /** The generator has stepped once for every word that was made. */
  lemma {:induction false} StepsAreWords(s: State, ds: seq<Draw>)
    ensures Run(s, ds).z == Iterate(MULT_Z, s.z, |Owners(s, ds)|)
    ensures Run(s, ds).w == Iterate(MULT_W, s.w, |Owners(s, ds)|)
  {
    hide Iterate, Next, Fetches;
    if ds == [] {
      NoSteps(s);
    } else {
      var init, last := ds[..|ds| - 1], ds[|ds| - 1];
      StepsAreWords(s, init);
      NextSteps(Run(s, init), last, s.z, s.w, |Owners(s, init)|);
    }
  }

  lemma NoSteps(s: State)
    ensures Iterate(MULT_Z, s.z, 0) == s.z && Iterate(MULT_W, s.w, 0) == s.w
  {}

  lemma NextWord(s: State, ds: seq<Draw>)
    ensures Shown(Advance(Run(s, ds))) == WordAt(s, |Owners(s, ds)|)
  {
    hide Run, Owners, Step;
    StepsAreWords(s, ds);
  }

  /** The parts that one draw adds to those taken by kind `d`, which is not the 64-bit one. */
  ghost function NewParts(t: State, last: Draw, d: Draw): seq<nat> {
    if d in Fetches(t, last) then Parts(Shown(Advance(t)), d) else []
  }

  lemma TakenMore(s: State, ds: seq<Draw>, last: Draw, d: Draw)
    requires d != D64
    ensures Taken(s, Owners(s, ds) + Fetches(Run(s, ds), last), d)
         == Taken(s, Owners(s, ds), d) + NewParts(Run(s, ds), last, d)
  {
    hide Shown, Parts, WordAt, Run, Owners, Taken, Advance;
    var owners, t := Owners(s, ds), Run(s, ds);
    NextWord(s, ds);
    match last {
      case D64 => TakenTwo(s, owners, D64, d);
      case D16 => TakenMaybe(s, owners, last, d, t.n16 > 0);
      case D8 => TakenMaybe(s, owners, last, d, t.n8 > 0);
      case D32 => TakenMaybe(s, owners, last, d, false);
    }
  }

  lemma TakenMaybe(s: State, owners: seq<Draw>, o: Draw, d: Draw, none: bool)
    ensures Taken(s, owners + (if none then [] else [o]), d)
         == Taken(s, owners, d) + if !none && o == d then Parts(WordAt(s, |owners|), d) else []
  {
    hide Parts, WordAt;
    if none { assert owners + [] == owners; } else { assert (owners + [o])[..|owners|] == owners; }
  }

  lemma TakenTwo(s: State, owners: seq<Draw>, o: Draw, d: Draw)
    requires o != d
    ensures Taken(s, owners + [o, o], d) == Taken(s, owners, d)
  {
    assert owners + [o, o] == owners + [o] + [o];
    TakenMaybe(s, owners, o, d, false);
    TakenMaybe(s, owners + [o], o, d, false);
  }

  lemma Splice(p0: seq<nat>, t: seq<nat>, d: seq<nat>, p1: seq<nat>, a: seq<nat>, b: seq<nat>, p2: seq<nat>)
    requires p0 + t == d + p1 && p1 + a == b + p2
    ensures p0 + (t + a) == (d + b) + p2
  {
    assert p0 + (t + a) == (p0 + t) + a == d + (p1 + a);
  }

  lemma ByteStep(t: State, last: Draw)
    ensures Pending8(t.saved8, t.n8) + NewParts(t, last, D8)
         == (if last == D8 then [Output(t, D8)] else []) + Pending8(Next(t, last).saved8, Next(t, last).n8)
  {
    hide Step, Shown;
    if last == D8 && t.n8 == 0 { BytesOfWord(Shown(Advance(t))); }
  }

  lemma BytesOfWord(x: nat)
    ensures Parts(x, D8) == [x % 256] + Pending8(x, 3)
  {
    var y := x / 256;
    var v := y / 256;
    assert Pending8(x, 3) == [y % 256] + Pending8(y, 2) && Pending8(y, 2) == [v % 256] + Pending8(v, 1);
    assert Pending8(v, 1) == [v / 256 % 256] + Pending8(v / 256, 0);
  }

  /**
    Bytes are conserved: those pending at the start and those of the words made for 8-bit draws
    are, in this order, the bytes delivered and those pending at the end.
   */
  lemma {:induction false} BytesConserved(s: State, ds: seq<Draw>)
    ensures Pending8(s.saved8, s.n8) + Taken(s, Owners(s, ds), D8)
         == Delivered(s, ds, D8) + Pending8(Run(s, ds).saved8, Run(s, ds).n8)
  {
    if ds != [] {
      hide Next, Output, Fetches, Pending8, NewParts;
      var init, last := ds[..|ds| - 1], ds[|ds| - 1];
      var t := Run(s, init);
      BytesConserved(s, init);
      TakenMore(s, init, last, D8);
      ByteStep(t, last);
      Splice(Pending8(s.saved8, s.n8), Taken(s, Owners(s, init), D8), Delivered(s, init, D8), Pending8(t.saved8, t.n8),
             NewParts(t, last, D8), if last == D8 then [Output(t, D8)] else [],
             Pending8(Next(t, last).saved8, Next(t, last).n8));
    }
  }

  lemma HalfStep(t: State, last: Draw)
    ensures Pending16(t.saved16, t.n16) + NewParts(t, last, D16)
         == (if last == D16 then [Output(t, D16)] else []) + Pending16(Next(t, last).saved16, Next(t, last).n16)
  {
    hide Step, Shown;
    if last == D16 && t.n16 == 0 {
      var x := Shown(Advance(t));
      assert Pending16(x, 1) == [x / HALF % HALF] + Pending16(x / HALF, 0);
    }
  }

  /** The same for halves and 16-bit draws. */
  lemma {:induction false} HalvesConserved(s: State, ds: seq<Draw>)
    ensures Pending16(s.saved16, s.n16) + Taken(s, Owners(s, ds), D16)
         == Delivered(s, ds, D16) + Pending16(Run(s, ds).saved16, Run(s, ds).n16)
  {
    if ds != [] {
      hide Next, Output, Fetches, Pending16, NewParts;
      var init, last := ds[..|ds| - 1], ds[|ds| - 1];
      var t := Run(s, init);
      HalvesConserved(s, init);
      TakenMore(s, init, last, D16);
      HalfStep(t, last);
      Splice(Pending16(s.saved16, s.n16), Taken(s, Owners(s, init), D16), Delivered(s, init, D16),
             Pending16(t.saved16, t.n16), NewParts(t, last, D16), if last == D16 then [Output(t, D16)] else [],
             Pending16(Next(t, last).saved16, Next(t, last).n16));
    }
  }

  /** 32-bit draws deliver exactly the words made for them. */
  lemma {:induction false} WordsConserved(s: State, ds: seq<Draw>)
    ensures Taken(s, Owners(s, ds), D32) == Delivered(s, ds, D32)
  {
    if ds != [] {
      hide Step, Shown;
      var init, last := ds[..|ds| - 1], ds[|ds| - 1];
      WordsConserved(s, init);
      TakenMore(s, init, last, D32);
    }
  }

  /** 64-bit outputs cut into the two words they join, high word first. */
  ghost function Split(xs: seq<nat>): seq<nat> {
    if xs == [] then [] else Split(xs[..|xs| - 1]) + [xs[|xs| - 1] / WORD, xs[|xs| - 1] % WORD]
  }

  lemma SplitMore(xs: seq<nat>, high: nat, low: nat)
    requires low < WORD
    ensures Split(xs + [high * WORD + low]) == Split(xs) + [high, low]
  {
    var ys := xs + [high * WORD + low];
    assert ys[..|ys| - 1] == xs;
    ModUnique(WORD * high + low, WORD, high, low);
  }

  lemma TakenPair(s: State, ds: seq<Draw>)
    ensures var t, owners := Run(s, ds), Owners(s, ds);
      Taken(s, owners + [D64, D64], D64) == Taken(s, owners, D64) + [Shown(Advance(t)), Shown(Advance(Advance(t)))]
  {
    hide Owners, Run, Advance, Shown, WordAt, Taken;
    var owners := Owners(s, ds);
    NextTwoWords(s, ds);
    assert owners + [D64, D64] == owners + [D64] + [D64];
    TakenMaybe(s, owners, D64, D64, false);
    TakenMaybe(s, owners + [D64], D64, D64, false);
  }

  lemma NextTwoWords(s: State, ds: seq<Draw>)
    ensures Shown(Advance(Run(s, ds))) == WordAt(s, |Owners(s, ds)|)
    ensures Shown(Advance(Advance(Run(s, ds)))) == WordAt(s, |Owners(s, ds)| + 1)
  {
    hide Run, Owners, Step;
    StepsAreWords(s, ds);
  }

  lemma WideStep(s: State, ds: seq<Draw>, last: Draw, xs: seq<nat>)
    requires Taken(s, Owners(s, ds), D64) == Split(xs)
    ensures Taken(s, Owners(s, ds) + Fetches(Run(s, ds), last), D64)
         == Split(xs + if last == D64 then [Output(Run(s, ds), D64)] else [])
  {
    hide Run, Advance, Shown, Taken, Split, Owners;
    var t, owners := Run(s, ds), Owners(s, ds);
    match last {
      case D64 =>
        TakenPair(s, ds);
        ShownFits(Advance(Advance(t)));
        SplitMore(xs, Shown(Advance(t)), Shown(Advance(Advance(t))));
      case D16 => TakenMaybe(s, owners, last, D64, t.n16 > 0); assert xs + [] == xs;
      case D8 => TakenMaybe(s, owners, last, D64, t.n8 > 0); assert xs + [] == xs;
      case D32 => TakenMaybe(s, owners, last, D64, false); assert xs + [] == xs;
    }
  }

  /** 64-bit draws deliver, in order, exactly the words made for them. */
  lemma {:induction false} WideConserved(s: State, ds: seq<Draw>)
    ensures Taken(s, Owners(s, ds), D64) == Split(Delivered(s, ds, D64))
  {
    hide Run, Fetches, Output, Next;
    if ds != [] {
      var init, last := ds[..|ds| - 1], ds[|ds| - 1];
      WideConserved(s, init);
      WideStep(s, init, last, Delivered(s, init, D64));
    }
  }

  lemma ShownFits(s: State)
    ensures Shown(s) < WORD
  {}

  /** States that later draws cannot tell apart: saved words count only while they are in use. */
  ghost predicate SameFuture(s: State, t: State) {
    && s.w == t.w && s.z == t.z && s.n8 == t.n8 && s.n16 == t.n16
    && (s.n8 > 0 ==> s.saved8 == t.saved8) && (s.n16 > 0 ==> s.saved16 == t.saved16)
  }

  lemma SameFutureStep(s: State, t: State, d: Draw)
    requires SameFuture(s, t)
    ensures SameFuture(Next(s, d), Next(t, d)) && Output(s, d) == Output(t, d)
  {
    hide Step;
  }

  function Seeded(s: State, w: nat, z: nat): State {
    s.(w := w, z := z, n8 := 0, n16 := 0)
  }

  /** The first word after seeding, in the seeds and the two multipliers. */
  lemma FirstWord(s: State, w: nat, z: nat)
    ensures Output(Seeded(s, w, z), D32)
         == (65536 * (36969 * (z % 65536) + z / 65536) + 18000 * (w % 65536) + w / 65536) % 0x1_0000_0000
  {}

  /** With nothing pending, four byte draws give the word that one 32-bit draw would give, lowest byte first. */
  lemma FourBytes(s: State)
    requires s.n8 == 0
    ensures Output(s, D8) + 256 * Output(Run(s, [D8]), D8) + 65536 * Output(Run(s, [D8, D8]), D8)
        + 16777216 * Output(Run(s, [D8, D8, D8]), D8) == Output(s, D32)
  {
    var x := Shown(Advance(s));
    assert Output(s, D32) == x;
    var t1 := Run(s, [D8]);
    var t2 := Run(s, [D8, D8]);
    var t3 := Run(s, [D8, D8, D8]);
    ShownFits(Advance(s));
    RunOne(s, D8);
    RunMore(s, [D8], D8);
    assert [D8] + [D8] == [D8, D8];
    RunMore(s, [D8, D8], D8);
    assert [D8, D8] + [D8] == [D8, D8, D8];
    ByteDraw(s);
    ByteDraw(t1);
    ByteDraw(t2);
    ByteDraw(t3);
    hide Run, Next, Output, Shown;
    Bytes(x);
  }

  lemma ByteDraw(s: State)
    ensures s.n8 == 0 ==>
      var x := Shown(Advance(s)); Output(s, D8) == x % 256 && Next(s, D8).saved8 == x && Next(s, D8).n8 == 3
    ensures s.n8 > 0 ==>
      Output(s, D8) == s.saved8 / 256 % 256 && Next(s, D8).saved8 == s.saved8 / 256 && Next(s, D8).n8 == s.n8 - 1
  {}

  /** Two 16-bit draws likewise; and a 64-bit draw gives two words, the first on top. */
  lemma HalvesAndWords(s: State)
    ensures s.n16 == 0 ==> Output(s, D16) + 65536 * Output(Run(s, [D16]), D16) == Output(s, D32)
    ensures Output(s, D64) == 0x1_0000_0000 * Output(s, D32) + Output(Run(s, [D32]), D32)
  {
    hide Step, Shown;
    var x := Shown(Advance(s));
    ShownFits(Advance(s));
    RunOne(s, D16);
    RunOne(s, D32);
    Bytes(x);
    hide Run;
  }

  lemma RunOne(s: State, d: Draw)
    ensures Run(s, [d]) == Next(s, d)
  {
    hide Next;
    assert [d][..0] == [] && Run(s, []) == s;
  }

  lemma RunMore(s: State, ds: seq<Draw>, d: Draw)
    ensures Run(s, ds + [d]) == Next(Run(s, ds), d)
  {
    hide Next;
    assert (ds + [d])[..|ds|] == ds;
  }

  lemma Bytes(x: nat)
    requires x < WORD
    ensures x % 256 + 256 * (x / 256 % 256) + 65536 * (x / 256 / 256 % 256)
      + 16777216 * (x / 256 / 256 / 256 % 256) == x
    ensures x % 65536 + 65536 * (x / 65536 % 65536) == x
  {}

  /** After `mwc_seed`, every later draw depends on the seeds and the draws only. */
  lemma {:induction false} SeedDetermines(s: State, t: State, w: nat, z: nat, ds: seq<Draw>, d: Draw)
    ensures SameFuture(Run(Seeded(s, w, z), ds), Run(Seeded(t, w, z), ds))
    ensures Output(Run(Seeded(s, w, z), ds), d) == Output(Run(Seeded(t, w, z), ds), d)
    decreases |ds|
  {
    hide Next, Output;
    if ds != [] {
      var init, last := ds[..|ds| - 1], ds[|ds| - 1];
      SeedDetermines(s, t, w, z, init, last);
      SameFutureStep(Run(Seeded(s, w, z), init), Run(Seeded(t, w, z), init), last);
    }
    SameFutureStep(Run(Seeded(s, w, z), ds), Run(Seeded(t, w, z), ds), d);
  }

  /** The generator as the source keeps it: the two halves, two counters, two saved words. */
  class Generator {
    var w: nat
    var z: nat
    var n8: nat
    var n16: nat
    var saved8: nat
    var saved16: nat

    ghost function View(): State
      reads this
    {
      State(w, z, n8, n16, saved8, saved16)
    }

    /** Every field fits its C type. */
    ghost predicate Valid()
      reads this
    {
      w < WORD && z < WORD && saved8 < WORD && saved16 < WORD && n8 <= 3 && n16 <= 1
    }

    constructor ()
      ensures Valid() && View() == State(521288629, 362436069, 0, 0, 0, 0)
    {
      w, z, n8, n16, saved8, saved16 := 521288629, 362436069, 0, 0, 0, 0;
    }

    method Flush()
      modifies this
      ensures View() == old(View()).(n8 := 0, n16 := 0)
    {
      n8 := 0;
      n16 := 0;
    }

    method Seed(w: nat, z: nat)
      requires w < WORD && z < WORD && Valid()
      modifies this
      ensures Valid() && View() == Seeded(old(View()), w, z)
      ensures this.w == w && this.z == z && n8 == n16 == 0 && saved8 == old(saved8) && saved16 == old(saved16)
    {
      this.w := w;
      this.z := z;
      Flush();
    }

    method Next32() returns (r: nat)
      requires Valid()
      modifies this
      ensures Valid() && View() == Next(old(View()), D32) && r == Output(old(View()), D32) && r < WORD
      ensures r == Word32(65536 * (36969 * (old(z) % 65536) + old(z) / 65536)
                          + 18000 * (old(w) % 65536) + old(w) / 65536)
    {
      assert WORD == Pow2(W) by { WordSize(); }
      StepFits(MULT_Z, z);
      StepFits(MULT_W, w);
      z := MULT_Z * (z % HALF) + z / HALF;
      w := MULT_W * (w % HALF) + w / HALF;
      return (z * HALF + w) % WORD;
    }

    method Next64() returns (r: nat)
      requires Valid()
      modifies this
      ensures Valid() && View() == Next(old(View()), D64) && r == Output(old(View()), D64)
    {
      hide Step, Shown;
      var high := Next32();
      var low := Next32();
      return high * WORD + low;
    }

    method Next16() returns (r: nat)
      requires Valid()
      modifies this
      ensures Valid() && View() == Next(old(View()), D16) && r == Output(old(View()), D16)
    {
      hide Step;
      if n16 > 0 {
        n16 := n16 - 1;
        saved16 := saved16 / HALF;
      } else {
        n16 := 1;
        saved16 := Next32();
      }
      return saved16 % HALF;
    }

    method Next8() returns (r: nat)
      requires Valid()
      modifies this
      ensures Valid() && View() == Next(old(View()), D8) && r == Output(old(View()), D8)
    {
      hide Step;
      if n8 > 0 {
        n8 := n8 - 1;
        saved8 := saved8 / 256;
      } else {
        n8 := 3;
        saved8 := Next32();
      }
      return saved8 % 256;
    }
  }
}
