/**
  Unsigned machine words as natural numbers, with the C bitwise operators defined by
  recursion on the binary digits. `Has(x, i)` is bit `i` of `x`; the lemmas give the
  bits of every operator's result.
 */
module Bits {

  function Pow2(w: nat): (p: nat)
    ensures p > 0
  {
    if w == 0 then 1 else 2 * Pow2(w - 1)
  }

  /** The width of a `uint32_t`. */
  const W: nat := 32

  /** What a `uint32_t` keeps of a result. */
  function Word32(x: nat): nat {
    x % Pow2(W)
  }

  lemma Pow2Step(k: nat)
    ensures Pow2(k + 1) == 2 * Pow2(k)
  {}

  lemma WordSize()
    ensures Pow2(W) == 0x1_0000_0000
  {
    assert Pow2(4) == 16;
    Pow2Add(4, 4); Pow2Add(8, 8); Pow2Add(16, 16);
  }

  lemma Word32Small(x: nat)
    requires x < 0x1_0000_0000
    ensures Word32(x) == x
  {
    WordSize();
  }

  lemma {:induction false} Pow2Add(a: nat, b: nat)
    ensures Pow2(a + b) == Pow2(a) * Pow2(b)
  {
    if a > 0 { Pow2Add(a - 1, b); }
  }

  predicate Has(x: nat, i: nat) {
    if i == 0 then x % 2 == 1 else Has(x / 2, i - 1)
  }

  /** `x | y` */
  function Or(x: nat, y: nat): nat {
    if x == 0 && y == 0 then 0 else 2 * Or(x / 2, y / 2) + (if x % 2 == 1 || y % 2 == 1 then 1 else 0)
  }

  /** `x & y` */
  function And(x: nat, y: nat): nat {
    if x == 0 then 0 else 2 * And(x / 2, y / 2) + (if x % 2 == 1 && y % 2 == 1 then 1 else 0)
  }

  /** `x ^ y` */
  function Xor(x: nat, y: nat): nat {
    if x == 0 && y == 0 then 0 else 2 * Xor(x / 2, y / 2) + (if x % 2 != y % 2 then 1 else 0)
  }

  /** `~x` in a word of `w` bits. */
  function Not(x: nat, w: nat): nat
    requires x < Pow2(w)
  {
    Pow2(w) - 1 - x
  }

  /** `-x` in a word of `w` bits. */
  function Neg(x: nat, w: nat): nat
    requires x < Pow2(w)
  {
    if x == 0 then 0 else Pow2(w) - x
  }

  lemma {:induction false} HasZero(i: nat)
    ensures !Has(0, i)
  {
    if i > 0 { HasZero(i - 1); }
  }

  lemma HasHalf(x: nat, i: nat)
    ensures Has(x / 2, i) == Has(x, i + 1)
  {}

  lemma {:induction false} HasOr(x: nat, y: nat, i: nat)
    ensures Has(Or(x, y), i) <==> Has(x, i) || Has(y, i)
  {
    if x == 0 && y == 0 {
      HasZero(i);
    } else if i > 0 {
      HasOr(x / 2, y / 2, i - 1);
    }
  }

  lemma {:induction false} HasAnd(x: nat, y: nat, i: nat)
    ensures Has(And(x, y), i) <==> Has(x, i) && Has(y, i)
  {
    if x == 0 {
      HasZero(i);
    } else if i > 0 {
      HasAnd(x / 2, y / 2, i - 1);
    }
  }

  lemma LowestBit(x: nat)
    ensures Has(x, 0) <==> x % 2 == 1
  {}

  lemma {:induction false} AndZero(x: nat)
    ensures And(x, 0) == 0
  {
    if x > 0 { AndZero(x / 2); }
  }

  lemma {:induction false} HasXor(x: nat, y: nat, i: nat)
    ensures Has(Xor(x, y), i) <==> Has(x, i) != Has(y, i)
  {
    if x == 0 && y == 0 {
      HasZero(i);
    } else if i > 0 {
      HasXor(x / 2, y / 2, i - 1);
    }
  }

  lemma {:induction false} HasNot(x: nat, w: nat, i: nat)
    requires x < Pow2(w)
    ensures Has(Not(x, w), i) <==> i < w && !Has(x, i)
  {
    if w == 0 {
      HasZero(i);
    } else if i > 0 {
      assert Not(x, w) / 2 == Not(x / 2, w - 1);
      HasNot(x / 2, w - 1, i - 1);
    }
  }

  /** A number below `2^w` has no bit from `w` on. */
  lemma {:induction false} HasBelow(x: nat, w: nat, i: nat)
    requires x < Pow2(w) && Has(x, i)
    ensures i < w
  {
    if w == 0 {
      HasZero(i);
    } else if i > 0 {
      HasBelow(x / 2, w - 1, i - 1);
    }
  }

  /** Conversely, a number whose bits all lie below `w` is below `2^w`. */
  lemma {:induction false} BelowFromBits(x: nat, w: nat)
    requires forall i | w <= i :: !Has(x, i)
    ensures x < Pow2(w)
    decreases w, x
  {
    if w == 0 {
      if x > 0 {
        var i := TopBit(x);
        assert false;
      }
    } else {
      forall i | w - 1 <= i ensures !Has(x / 2, i) { assert Has(x / 2, i) == Has(x, i + 1); }
      BelowFromBits(x / 2, w - 1);
    }
  }

  /** A positive number has a set bit. */
  lemma {:induction false} TopBit(x: nat) returns (i: nat)
    requires x > 0
    ensures Has(x, i)
  {
    if x % 2 == 1 { i := 0; } else { i := TopBit(x / 2); i := i + 1; }
  }

  /** Numbers are determined by their bits. */
  lemma {:induction false} SameBits(x: nat, y: nat)
    requires forall i: nat :: Has(x, i) == Has(y, i)
    ensures x == y
    decreases x + y
  {
    assert Has(x, 0) == Has(y, 0);
    if x + y > 0 {
      forall i: nat ensures Has(x / 2, i) == Has(y / 2, i) { assert Has(x, i + 1) == Has(y, i + 1); }
      SameBits(x / 2, y / 2);
    }
  }

  lemma HalfMod(x: nat, p: nat)
    requires p > 0
    ensures (x % (2 * p)) / 2 == (x / 2) % p
    ensures (x % (2 * p)) % 2 == x % 2
  {
    var q, r := x / (2 * p), x % (2 * p);
    assert x == 2 * (p * q) + r;
    assert x / 2 == p * q + r / 2;
    ModUnique(x / 2, p, q, r / 2);
  }

  lemma ModUnique(x: int, m: nat, q: int, r: int)
    requires m > 0 && x == m * q + r && 0 <= r < m
    ensures x % m == r && x / m == q
  {
    var d := q - x / m;
    assert m * d == x % m - r;
    MulAtLeast(m, d);
    MulAtLeast(m, -d);
  }

  lemma MulAtLeast(m: nat, d: int)
    ensures d >= 1 ==> m * d >= m
  {
    if d >= 1 { assert m * d == m + m * (d - 1); }
  }

  /** Additions of truncated values truncate to the same word. */
  lemma SumMod(a: nat, b: nat, m: nat)
    requires m > 0
    ensures (a % m + b % m) % m == (a + b) % m
  {
    var s := a % m + b % m;
    assert a + b == m * (a / m + b / m + s / m) + s % m by {
      assert a == m * (a / m) + a % m && b == m * (b / m) + b % m && s == m * (s / m) + s % m;
    }
    ModUnique(a + b, m, a / m + b / m + s / m, s % m);
  }

  /** Truncation to `w` bits keeps exactly the bits below `w`. */
  lemma WrapOnce(a: nat, b: nat)
    ensures Word32(Word32(a) + b) == Word32(a + b)
  {
    hide Pow2;
    var m := Pow2(W);
    SumMod(a, b, m);
    SumMod(a % m, b, m);
    ModUnique(a % m, m, 0, a % m);
  }

  lemma {:induction false} HasTruncated(x: nat, w: nat, i: nat)
    ensures Has(x % Pow2(w), i) <==> i < w && Has(x, i)
  {
    if w == 0 {
      HasZero(i);
    } else {
      HalfMod(x, Pow2(w - 1));
      if i > 0 { HasTruncated(x / 2, w - 1, i - 1); }
    }
  }

  /** `x << 1` in a word of `w` bits. */
  lemma HasShl(x: nat, w: nat, i: nat)
    ensures Has((2 * x) % Pow2(w), i) <==> 0 < i < w && Has(x, i - 1)
  {
    HasTruncated(2 * x, w, i);
  }

  lemma {:induction false} AndComplement(x: nat, w: nat)
    requires x < Pow2(w)
    ensures And(x, Not(x, w)) == 0
  {
    if w > 0 {
      assert Not(x, w) / 2 == Not(x / 2, w - 1);
      AndComplement(x / 2, w - 1);
    }
  }

  /** `x & -x` isolates one set bit of `x`. */
  lemma {:induction false} LowBit(x: nat, w: nat) returns (k: nat)
    requires 0 < x < Pow2(w)
    ensures k < w && Has(x, k)
    ensures And(x, Neg(x, w)) == Pow2(k)
  {
    if x % 2 == 1 {
      k := 0;
      assert Neg(x, w) / 2 == Not(x / 2, w - 1);
      AndComplement(x / 2, w - 1);
    } else {
      assert Neg(x, w) / 2 == Neg(x / 2, w - 1);
      k := LowBit(x / 2, w - 1);
      k := k + 1;
    }
  }

  lemma {:induction false} HasPow2(k: nat, i: nat)
    ensures Has(Pow2(k), i) <==> i == k
  {
    if k == 0 {
      if i > 0 { HasZero(i - 1); }
    } else if i > 0 {
      HasPow2(k - 1, i - 1);
    }
  }

  /** Subtracting a set bit clears it. */
  lemma {:induction false} HasMinusBit(x: nat, k: nat, i: nat)
    requires Has(x, k)
    ensures Pow2(k) <= x
    ensures Has(x - Pow2(k), i) <==> Has(x, i) && i != k
    decreases k
  {
    if k > 0 {
      HasMinusBit(x / 2, k - 1, if i > 0 then i - 1 else 0);
      assert (x - Pow2(k)) / 2 == x / 2 - Pow2(k - 1);
    }
  }

  lemma {:induction false} HasAllOnes(w: nat, i: nat)
    ensures Has(Pow2(w) - 1, i) <==> i < w
  {
    HasZero(i);
    HasNot(0, w, i);
  }

  lemma {:induction false} Pow2Less(a: nat, b: nat)
    requires a < b
    ensures Pow2(a) < Pow2(b)
    decreases b
  {
    if a < b - 1 { Pow2Less(a, b - 1); }
  }

  /** `w & (1 << k)` is non-zero exactly when bit `k` is set. */
  lemma TestBit(w: nat, k: nat)
    ensures And(w, Pow2(k)) != 0 <==> Has(w, k)
  {
    HasAnd(w, Pow2(k), k);
    HasPow2(k, k);
    HasZero(k);
    if And(w, Pow2(k)) != 0 {
      var i := TopBit(And(w, Pow2(k)));
      HasAnd(w, Pow2(k), i);
      HasPow2(k, i);
    }
  }

  /** `w & ~(1 << k)` clears bit `k` and no other. */
  lemma ClearBit(w: nat, k: nat, i: nat)
    requires k < W && i < W
    ensures Pow2(k) < Pow2(W)
    ensures Has(And(w, Not(Pow2(k), W)), i) <==> Has(w, i) && i != k
  {
    Pow2Less(k, W);
    HasAnd(w, Not(Pow2(k), W), i);
    HasNot(Pow2(k), W, i);
    HasPow2(k, i);
  }

  lemma XorHalves(x: nat, y: nat)
    ensures Xor(x, y) / 2 == Xor(x / 2, y / 2)
    ensures Xor(x, y) % 2 == (if x % 2 != y % 2 then 1 else 0)
  {}

  /** Exclusive or is a group operation in which everything is its own inverse. */
  lemma XorFacts(x: nat, y: nat, z: nat)
    ensures Xor(x, y) == Xor(y, x)
    ensures Xor(Xor(x, y), z) == Xor(x, Xor(y, z))
    ensures Xor(x, 0) == x && Xor(0, x) == x && Xor(x, x) == 0
  {
    forall i: nat
      ensures Has(Xor(x, y), i) == Has(Xor(y, x), i) && Has(Xor(x, 0), i) == Has(x, i) == Has(Xor(0, x), i)
      ensures Has(Xor(Xor(x, y), z), i) == Has(Xor(x, Xor(y, z)), i) && Has(Xor(x, x), i) == Has(0, i)
    {
      HasXor(x, y, i); HasXor(y, x, i); HasXor(x, 0, i); HasXor(0, x, i); HasXor(x, x, i); HasZero(i);
      HasXor(Xor(x, y), z, i); HasXor(x, Xor(y, z), i); HasXor(y, z, i);
    }
    SameBits(Xor(x, y), Xor(y, x));
    SameBits(Xor(Xor(x, y), z), Xor(x, Xor(y, z)));
    SameBits(Xor(x, 0), x); SameBits(Xor(0, x), x); SameBits(Xor(x, x), 0);
  }

  lemma XorBelow(x: nat, y: nat, w: nat)
    requires x < Pow2(w) && y < Pow2(w)
    ensures Xor(x, y) < Pow2(w)
  {
    forall i | w <= i ensures !Has(Xor(x, y), i) {
      HasXor(x, y, i);
      if Has(x, i) { HasBelow(x, w, i); }
      if Has(y, i) { HasBelow(y, w, i); }
    }
    BelowFromBits(Xor(x, y), w);
  }

  /** Exclusive or with one bit toggles it. */
  lemma {:induction false} Toggle(x: nat, k: nat)
    ensures Has(x, k) ==> x >= Pow2(k)
    ensures Xor(x, Pow2(k)) == if Has(x, k) then x - Pow2(k) else x + Pow2(k)
  {
    if k == 0 {
      XorFacts(x / 2, 0, 0);
    } else {
      Toggle(x / 2, k - 1);
      XorHalves(x, Pow2(k));
    }
  }

  lemma {:induction false} HasDiv(x: nat, k: nat)
    ensures Has(x, k) <==> x / Pow2(k) % 2 == 1
  {
    if k > 0 {
      HasDiv(x / 2, k - 1);
      DivDiv(x, Pow2(k - 1));
    }
  }

  lemma DivDiv(x: nat, p: nat)
    requires p > 0
    ensures x / (2 * p) == x / 2 / p
  {
    var q, r := x / (2 * p), x % (2 * p);
    assert x == 2 * (p * q) + r;
    ModUnique(x / 2, p, q, r / 2);
  }

  /** `x >> k` */
  function Shr(x: nat, k: nat): nat {
    if k == 0 then x else Shr(x / 2, k - 1)
  }

  lemma {:induction false} HasShr(x: nat, k: nat, i: nat)
    ensures Has(Shr(x, k), i) == Has(x, i + k)
  {
    if k > 0 { HasShr(x / 2, k - 1, i); }
  }

  lemma {:induction false} ShrLast(x: nat, k: nat)
    ensures Shr(x, k + 1) == Shr(x, k) / 2
  {
    if k > 0 { ShrLast(x / 2, k - 1); }
  }

  lemma {:induction false} ShrAdd(x: nat, a: nat, b: nat)
    ensures Shr(x, a + b) == Shr(Shr(x, a), b)
  {
    if a > 0 { ShrAdd(x / 2, a - 1, b); }
  }

  lemma Shr4(x: nat)
    ensures Shr(x, 4) == x / 16
  {
    assert Shr(x, 4) == Shr(x / 2, 3) == Shr(x / 2 / 2, 2) == Shr(x / 2 / 2 / 2, 1);
  }

  lemma Shr8(x: nat)
    ensures Shr(x, 8) == x / 256
  {
    ShrAdd(x, 4, 4);
    Shr4(x);
    Shr4(x / 16);
  }

  /** Masking with `2^b - 1` is reduction modulo `2^b`. */
  lemma MaskIsMod(x: nat, b: nat)
    ensures And(x, Pow2(b) - 1) == x % Pow2(b)
  {
    forall i: nat ensures Has(And(x, Pow2(b) - 1), i) == Has(x % Pow2(b), i) {
      HasAnd(x, Pow2(b) - 1, i);
      HasAllOnes(b, i);
      HasTruncated(x, b, i);
    }
    SameBits(And(x, Pow2(b) - 1), x % Pow2(b));
  }

  lemma Shr16(x: nat)
    ensures Shr(x, 16) == x / 0x10000
  {
    ShrAdd(x, 8, 8);
    Shr8(x);
    Shr8(x / 256);
  }
}
