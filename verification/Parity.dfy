/** The six ways the CPU stressor computes the parity of a 32-bit word. */
module Parity {
  import opened Bits

  /** Whether `v` has an odd number of set bits. */
  predicate Odd(v: nat) {
    v != 0 && (v % 2 == 1) != Odd(v / 2)
  }

  /** Parity by looking at every bit. */
  method Naive(val: nat) returns (parity: bool)
    ensures parity == Odd(val)
  {
    var v := val;
    parity := false;
    while v != 0
      invariant Odd(val) == (parity != Odd(v))
    {
      if v % 2 == 1 { parity := !parity; }
      v := v / 2;
    }
  }

  /** `v & (v - 1)` drops exactly one set bit. */
  lemma {:induction false} DropLowest(v: nat)
    requires v > 0
    ensures And(v, v - 1) < v && Odd(And(v, v - 1)) != Odd(v)
  {
    if v % 2 == 1 {
      assert (v - 1) / 2 == v / 2;
      AndSelf(v / 2);
      assert And(v, v - 1) == 2 * (v / 2);
      OddDouble(v / 2);
    } else {
      DropLowest(v / 2);
      assert (v - 1) / 2 == v / 2 - 1;
      OddDouble(And(v / 2, v / 2 - 1));
      OddDouble(v / 2);
    }
  }

  lemma {:induction false} AndSelf(v: nat)
    ensures And(v, v) == v
  {
    if v > 0 { AndSelf(v / 2); }
  }

  lemma OddDouble(v: nat)
    ensures Odd(2 * v) == Odd(v)
  {}

  /** Parity by Kernighan's way of counting bits. */
  method Kernighan(val: nat) returns (p: bool)
    ensures p == Odd(val)
  {
    var v := val;
    p := false;
    while v != 0
      invariant Odd(val) == (p != Odd(v))
    {
      DropLowest(v);
      p := !p;
      v := And(v, v - 1);
    }
  }

  /** Parity turns exclusive or into addition. */
  lemma {:induction false} OddXor(a: nat, b: nat)
    ensures Odd(Xor(a, b)) <==> Odd(a) != Odd(b)
  {
    if a + b > 0 {
      XorHalves(a, b);
      OddXor(a / 2, b / 2);
    }
  }

  /** A word's parity is that of its low part against that of the rest. */
  lemma {:induction false} OddSplit(x: nat, k: nat)
    ensures Odd(x) <==> Odd(x % Pow2(k)) != Odd(Shr(x, k))
  {
    if k > 0 {
      HalfMod(x, Pow2(k - 1));
      OddSplit(x / 2, k - 1);
      OddHalf(x);
      OddHalf(x % Pow2(k));
    }
  }

  lemma OddHalf(x: nat)
    ensures Odd(x) <==> (x % 2 == 1) != Odd(x / 2)
  {}

  /** `v ^ (v >> k)` has in its low `k` bits the parity of the low `2 k` bits of `v`. */
  lemma Fold(v: nat, k: nat)
    ensures Odd(Xor(v, Shr(v, k)) % Pow2(k)) == Odd(v % Pow2(2 * k))
  {
    hide Xor, Odd, Shr;
    var x, lo, hi := v % Pow2(2 * k), v % Pow2(k), Shr(v, k) % Pow2(k);
    forall i: nat
      ensures Has(Xor(v, Shr(v, k)) % Pow2(k), i) == Has(Xor(lo, hi), i)
      ensures Has(x % Pow2(k), i) == Has(lo, i) && Has(Shr(x, k), i) == Has(hi, i)
    {
      FoldBits(v, k, i);
    }
    SameBits(Xor(v, Shr(v, k)) % Pow2(k), Xor(lo, hi));
    SameBits(x % Pow2(k), lo);
    SameBits(Shr(x, k), hi);
    OddSplit(x, k);
    OddXor(lo, hi);
  }

  lemma FoldBits(v: nat, k: nat, i: nat)
    ensures Has(Xor(v, Shr(v, k)) % Pow2(k), i) == Has(Xor(v % Pow2(k), Shr(v, k) % Pow2(k)), i)
    ensures Has(v % Pow2(2 * k) % Pow2(k), i) == Has(v % Pow2(k), i)
    ensures Has(Shr(v % Pow2(2 * k), k), i) == Has(Shr(v, k) % Pow2(k), i)
  {
    hide Xor, Has, Shr, Pow2;
    HasTruncated(Xor(v, Shr(v, k)), k, i);
    HasXor(v, Shr(v, k), i);
    HasXor(v % Pow2(k), Shr(v, k) % Pow2(k), i);
    HasTruncated(v, k, i);
    HasTruncated(Shr(v, k), k, i);
    HasTruncated(v % Pow2(2 * k), k, i);
    HasTruncated(v, 2 * k, i);
    HasShr(v % Pow2(2 * k), k, i);
    HasTruncated(v, 2 * k, i + k);
    HasShr(v, k, i);
  }

  lemma Widths()
    ensures Pow2(4) == 16 && Pow2(8) == 256 && Pow2(16) == 0x10000 && Pow2(32) == 0x1_0000_0000
  {
    assert Pow2(4) == 16;
    Pow2Add(4, 4); Pow2Add(8, 8); Pow2Add(16, 16);
  }

  /** Folding by 16 and by 8 leaves the parity in the low byte. */
  lemma FoldToByte(v: nat, v1: nat, v2: nat)
    requires v < 0x1_0000_0000 && v1 == Xor(v, v / 0x10000) && v2 == Xor(v1, v1 / 256)
    ensures Odd(v2 % 256) == Odd(v)
  {
    hide Xor, Pow2, Odd;
    Widths();
    Shr16(v);
    Shr8(v1);
    Fold(v, 16);
    Fold(v1, 8);
    Word32Small(v);
  }

  lemma FoldToNibble(v2: nat)
    ensures Odd(Xor(v2, v2 / 16) % 16) == Odd(v2 % 256)
  {
    hide Xor, Pow2, Odd;
    Widths();
    Shr4(v2);
    Fold(v2, 4);
  }

  /** 0x6996 is the table of the parities of 0..15. */
  lemma MagicNumber(v: nat)
    requires v < 16
    ensures Shr(0x6996, v) % 2 == 1 <==> Odd(v)
  {
    var a, b := v / 4, v % 4;
    var y := if a == 0 then 0x6996 else if a == 1 then 0x699 else if a == 2 then 0x69 else 0x6;
    hide Shr, Odd;
    MagicShift(v, a, b, y);
    OddSmall(a);
    OddSmall(b);
    OddSplitFour(v);
    ShrSmall(y, b);
    assert Shr(y, b) % 2 == 1 <==> (a == 1 || a == 2) != (b == 1 || b == 2);
  }

  lemma MagicShift(v: nat, a: nat, b: nat, y: nat)
    requires v == 4 * a + b && a < 4 && b < 4
    requires y == if a == 0 then 0x6996 else if a == 1 then 0x699 else if a == 2 then 0x69 else 0x6
    ensures Shr(0x6996, v) == Shr(y, b)
  {
    hide Shr;
    Shr4(0x6996); Shr4(0x699); Shr4(0x69);
    ShrAdd(0x6996, 4, 4); ShrAdd(0x6996, 8, 4);
    ShrAdd(0x6996, 4 * a, b);
  }

  lemma ShrSmall(y: nat, b: nat)
    requires b < 4
    ensures Shr(y, b) == if b == 0 then y else if b == 1 then y / 2 else if b == 2 then y / 4 else y / 8
  {
    if b == 3 { assert Shr(y, 3) == Shr(y / 2, 2) == Shr(y / 2 / 2, 1); }
  }

  lemma OddSmall(a: nat)
    requires a < 4
    ensures Odd(a) <==> a == 1 || a == 2
  {}

  lemma OddSplitFour(v: nat)
    ensures Odd(v) <==> Odd(v / 4) != Odd(v % 4)
  {
    OddSplit(v, 2);
    assert Pow2(2) == 4;
    ShrSmall(v, 2);
  }

  /** Parity in parallel. */
  method Parallel(val: nat) returns (p: bool)
    requires val < 0x1_0000_0000
    ensures p == Odd(val)
  {
    hide Xor, Odd, Shr;
    var v := val;
    v := Xor(v, v / 0x10000);
    ghost var v1 := v;
    v := Xor(v, v / 256);
    FoldToByte(val, v1, v);
    FoldToNibble(v);
    v := Xor(v, v / 16);
    assert And(v, 0xf) == v % 16 by { MaskIsMod(v, 4); Widths(); }
    v := And(v, 0xf);
    MagicNumber(v);
    p := Shr(0x6996, v) % 2 == 1;
  }

  /** The macros that build the lookup table. */
  function P2(n: bool): seq<bool> {
    [n, !n, !n, n]
  }

  function P4(n: bool): seq<bool> {
    P2(n) + P2(!n) + P2(!n) + P2(n)
  }

  function P6(n: bool): seq<bool> {
    P4(n) + P4(!n) + P4(!n) + P4(n)
  }

  function Table(): seq<bool> {
    P6(false) + P6(true) + P6(true) + P6(false)
  }

  lemma P2Parity(n: bool, i: nat)
    requires i < 4
    ensures P2(n)[i] == (n != Odd(i))
  {
    OddSmall(i);
  }

  lemma P4Parity(n: bool, i: nat)
    requires i < 16
    ensures |P4(n)| == 16 && P4(n)[i] == (n != Odd(i))
  {
    var a, b := i / 4, i % 4;
    OddSplitFour(i);
    OddSmall(a);
    P2Parity(n != Odd(a), b);
    assert P4(n)[i] == P2(n != Odd(a))[b];
  }

  lemma P6Parity(n: bool, i: nat)
    requires i < 64
    ensures |P6(n)| == 64 && P6(n)[i] == (n != Odd(i))
  {
    hide P4, Odd, Shr, Pow2;
    var a, b := i / 16, i % 16;
    OddSplit(i, 4);
    Widths();
    Shr4(i);
    OddSmall(a);
    P4Parity(n, 0); P4Parity(!n, 0);
    P4Parity(n != Odd(a), b);
    assert P6(n)[i] == P4(n != Odd(a))[b];
  }

  /** The table holds the parity of every byte. */
  lemma TableParity(i: nat)
    requires i < 256
    ensures |Table()| == 256 && Table()[i] == Odd(i)
  {
    hide P6;
    var a, b := i / 64, i % 64;
    assert Odd(i) <==> Odd(a) != Odd(b) by { OddSplitSixtyFour(i); }
    OddSmall(a);
    P6Parity(false, 0); P6Parity(true, 0);
    P6Parity(Odd(a), b);
    assert Table()[i] == P6(Odd(a))[b];
  }

  lemma OddSplitSixtyFour(i: nat)
    ensures Odd(i) <==> Odd(i / 64) != Odd(i % 64)
  {
    hide Odd, Shr, Pow2;
    OddSplit(i, 6);
    assert Pow2(6) == 64 by { SixtyFour(); }
    ShrAdd(i, 4, 2);
    Shr4(i);
    ShrSmall(i / 16, 2);
  }

  lemma SixtyFour()
    ensures Pow2(6) == 64
  {
    assert Pow2(3) == 8;
  }

  /** Parity by table lookup after folding. */
  method Lookup(val: nat) returns (p: bool)
    requires val < 0x1_0000_0000
    ensures p == Odd(val)
  {
    hide Xor, Odd, Table;
    var v := val;
    v := Xor(v, v / 0x10000);
    ghost var v1 := v;
    v := Xor(v, v / 256);
    FoldToByte(val, v1, v);
    assert And(v, 0xff) == v % 256 by { MaskIsMod(v, 8); Widths(); }
    TableParity(And(v, 0xff));
    p := Table()[And(v, 0xff)];
  }

  /** Parity by looking up the exclusive or of the four bytes. */
  method LookupBytes(val: nat) returns (p: bool)
    requires val < 0x1_0000_0000
    ensures p == Odd(val)
  {
    hide Xor, Odd, Table;
    var b0, b1, b2, b3 := val % 256, val / 256 % 256, val / 0x10000 % 256, val / 0x1000000;
    var x := Xor(Xor(Xor(b0, b1), b2), b3);
    BytesBelow(b0, b1, b2, b3);
    BytesParity(val);
    OddXor(b0, b1); OddXor(Xor(b0, b1), b2); OddXor(Xor(Xor(b0, b1), b2), b3);
    TableParity(x);
    p := Table()[x];
  }

  lemma BytesBelow(b0: nat, b1: nat, b2: nat, b3: nat)
    requires b0 < 256 && b1 < 256 && b2 < 256 && b3 < 256
    ensures Xor(Xor(Xor(b0, b1), b2), b3) < 256
  {
    hide Xor;
    Widths();
    XorBelow(b0, b1, 8); XorBelow(Xor(b0, b1), b2, 8); XorBelow(Xor(Xor(b0, b1), b2), b3, 8);
  }

  lemma OddByte(x: nat)
    ensures Odd(x) <==> Odd(x % 256) != Odd(x / 256)
  {
    OddSplit(x, 8);
    Widths();
    Shr8(x);
  }

  lemma BytesParity(val: nat)
    ensures Odd(val) <==>
      (((Odd(val % 256) != Odd(val / 256 % 256)) != Odd(val / 0x10000 % 256)) != Odd(val / 0x1000000))
  {
    hide Odd;
    OddByte(val); OddByte(val / 256); OddByte(val / 0x10000);
    assert val / 256 / 256 == val / 0x10000 && val / 0x10000 / 256 == val / 0x1000000;
  }

  /** The lowest bits of the low `k` nibbles, as the number `x & 0x1...1`. */
  function NibbleBits(x: nat, k: nat): nat {
    if k == 0 then 0 else x % 2 + 16 * NibbleBits(x / 16, k - 1)
  }

  function Ones(k: nat): nat {
    if k == 0 then 0 else 1 + 16 * Ones(k - 1)
  }

  lemma {:induction false} AndOnes(x: nat, k: nat)
    ensures And(x, Ones(k)) == NibbleBits(x, k)
  {
    if k == 0 {
      AndZero(x);
    } else {
      AndOnes(x / 16, k - 1);
      AndNibble(x, Ones(k - 1));
    }
  }

  lemma AndNibble(x: nat, m: nat)
    ensures And(x, 1 + 16 * m) == x % 2 + 16 * And(x / 16, m)
  {
    hide And;
    var y := x / 2;
    AndStep(x, 1 + 16 * m);
    AndStep(y, 8 * m); AndStep(y / 2, 4 * m); AndStep(y / 2 / 2, 2 * m);
    assert y / 2 / 2 / 2 == x / 16;
  }

  lemma AndStep(x: nat, y: nat)
    ensures And(x, y) == 2 * And(x / 2, y / 2) + if x % 2 == 1 && y % 2 == 1 then 1 else 0
  {}

  /** Multiplying eight nibble bits by 0x11111111 adds them up in the top nibble. */
  lemma ShapiraProduct(b0: nat, b1: nat, b2: nat, b3: nat, b4: nat, b5: nat, b6: nat, b7: nat)
    requires b0 < 2 && b1 < 2 && b2 < 2 && b3 < 2 && b4 < 2 && b5 < 2 && b6 < 2 && b7 < 2
    ensures var u := b0 + b1 * 16 + b2 * 256 + b3 * 4096 + b4 * 65536 + b5 * 1048576 + b6 * 16777216 + b7 * 268435456;
      (u * 0x11111111) % 0x1_0000_0000 / 0x1000_0000 == b0 + b1 + b2 + b3 + b4 + b5 + b6 + b7
  {
    var u := b0 + b1 * 16 + b2 * 256 + b3 * 4096 + b4 * 65536 + b5 * 1048576 + b6 * 16777216 + b7 * 268435456;
    var sum := b0 + b1 + b2 + b3 + b4 + b5 + b6 + b7;
    var low := b0 + (b0 + b1) * 16 + (b0 + b1 + b2) * 256 + (b0 + b1 + b2 + b3) * 4096
      + (b0 + b1 + b2 + b3 + b4) * 65536 + (b0 + b1 + b2 + b3 + b4 + b5) * 1048576
      + (b0 + b1 + b2 + b3 + b4 + b5 + b6) * 16777216;
    var high := b1 + b2 + b3 + b4 + b5 + b6 + b7 + (b2 + b3 + b4 + b5 + b6 + b7) * 16
      + (b3 + b4 + b5 + b6 + b7) * 256 + (b4 + b5 + b6 + b7) * 4096 + (b5 + b6 + b7) * 65536
      + (b6 + b7) * 1048576 + b7 * 16777216;
    assert u * 0x11111111 == 0x1_0000_0000 * high + (0x1000_0000 * sum + low);
    ModUnique(u * 0x11111111, 0x1_0000_0000, high, 0x1000_0000 * sum + low);
    ModUnique(0x1000_0000 * sum + low, 0x1000_0000, sum, low);
  }

  /** The first two steps of Shapira's method. */
  function Gather(v: nat): nat {
    var v1 := Xor(v, v / 2);
    Xor(v1, v1 / 4)
  }

  /** They leave the parity of each nibble in its lowest bit. */
  lemma GatherNibble(v: nat)
    ensures Gather(v) % 2 == (if Odd(v % 16) then 1 else 0)
    ensures Gather(v) / 16 == Gather(v / 16)
  {
    GatherBit(v);
    forall i: nat ensures Has(Gather(v) / 16, i) == Has(Gather(v / 16), i) { GatherShift(v, i); }
    SameBits(Gather(v) / 16, Gather(v / 16));
  }

  lemma GatherHas(v: nat, i: nat)
    ensures Has(Gather(v), i) <==> ((Has(v, i) != Has(v, i + 1)) != (Has(v, i + 2) != Has(v, i + 3)))
  {
    hide Xor, Has;
    var v1 := Xor(v, v / 2);
    HasXor(v1, v1 / 4, i);
    HasXor(v, v / 2, i);
    HasHalf(v, i);
    HasQuarter(v1, i);
    HasXor(v, v / 2, i + 2);
    HasHalf(v, i + 2);
  }

  lemma HasQuarter(x: nat, i: nat)
    ensures Has(x / 4, i) == Has(x, i + 2)
  {
    assert x / 4 == x / 2 / 2;
    HasHalf(x / 2, i);
    HasHalf(x, i + 1);
  }

  lemma HasSixteenth(x: nat, i: nat)
    ensures Has(x / 16, i) == Has(x, i + 4)
  {
    hide Has;
    assert x / 16 == x / 4 / 4;
    HasQuarter(x / 4, i);
    HasQuarter(x, i + 2);
  }

  lemma GatherShift(v: nat, i: nat)
    ensures Has(Gather(v) / 16, i) == Has(Gather(v / 16), i)
  {
    hide Has, Gather;
    HasSixteenth(Gather(v), i);
    GatherHas(v, i + 4);
    GatherHas(v / 16, i);
    HasSixteenth(v, i); HasSixteenth(v, i + 1); HasSixteenth(v, i + 2); HasSixteenth(v, i + 3);
  }

  lemma GatherBit(v: nat)
    ensures Gather(v) % 2 == (if Odd(v % 16) then 1 else 0)
  {
    hide Gather, Has, Odd, Pow2;
    GatherHas(v, 0);
    LowestBit(Gather(v));
    var n := v % 16;
    assert Pow2(4) == 16 by { Widths(); }
    HasTruncated(v, 4, 0); HasTruncated(v, 4, 1); HasTruncated(v, 4, 2); HasTruncated(v, 4, 3);
    OddFourBits(n);
  }

  lemma OddFourBits(n: nat)
    requires n < 16
    ensures Odd(n) <==> ((Has(n, 0) != Has(n, 1)) != (Has(n, 2) != Has(n, 3)))
  {
    assert n / 2 / 2 / 2 / 2 == 0 && !Odd(0);
    var h, q, e := n / 2, n / 2 / 2, n / 2 / 2 / 2;
    hide Has, Odd;
    OddHalf(n); OddHalf(h); OddHalf(q); OddHalf(e);
    LowestBit(n); LowestBit(h); LowestBit(q); LowestBit(e);
    HasHalf(n, 0);
    HasHalf(n, 1); HasHalf(h, 0);
    HasHalf(n, 2); HasHalf(h, 1); HasHalf(q, 0);
  }

  /** The parity of the lowest nibble, as a number. */
  function Par4(v: nat): nat {
    if Odd(v % 16) then 1 else 0
  }

  lemma OddNibble(v: nat)
    ensures Odd(v) <==> (Par4(v) == 1) != Odd(v / 16)
  {
    hide Odd;
    OddSplit(v, 4);
    Widths();
    Shr4(v);
  }

  lemma NibbleBitsStep(v: nat, k: nat)
    requires k > 0
    ensures NibbleBits(Gather(v), k) == Par4(v) + 16 * NibbleBits(Gather(v / 16), k - 1)
  {
    hide Gather, Odd;
    GatherNibble(v);
  }

  /** Parity by Shapira's multiplication. */
  method Shapira(val: nat) returns (p: bool)
    requires val < 0x1_0000_0000
    ensures p == Odd(val)
  {
    hide Odd, Xor, And, NibbleBits, Par4;
    var v := val;
    v := Xor(v, v / 2);
    v := Xor(v, v / 4);
    assert v == Gather(val);
    hide Gather;
    assert And(v, 0x11111111) == NibbleBits(v, 8) by { AndOnes(v, 8); OnesEight(); }
    v := (And(v, 0x11111111) * 0x11111111) % 0x1_0000_0000;
    ghost var n1 := val / 16;
    ghost var n2 := n1 / 16;
    ghost var n3 := n2 / 16;
    ghost var n4 := n3 / 16;
    ghost var n5 := n4 / 16;
    ghost var n6 := n5 / 16;
    ghost var n7 := n6 / 16;
    NibblesParity(val, n1, n2, n3, n4, n5, n6, n7);
    NibblesNumber(val, n1, n2, n3, n4, n5, n6, n7);
    Par4IsBit(val); Par4IsBit(n1); Par4IsBit(n2); Par4IsBit(n3);
    Par4IsBit(n4); Par4IsBit(n5); Par4IsBit(n6); Par4IsBit(n7);
    ShapiraProduct(Par4(val), Par4(n1), Par4(n2), Par4(n3), Par4(n4), Par4(n5), Par4(n6), Par4(n7));
    p := v / 0x1000_0000 % 2 == 1;
  }

  lemma Par4IsBit(v: nat)
    ensures Par4(v) < 2
  {}

  lemma OnesEight()
    ensures Ones(8) == 0x11111111
  {
    assert Ones(2) == 0x11;
    assert Ones(4) == 0x1111;
    assert Ones(6) == 0x111111;
  }

  lemma NibblesParity(n0: nat, n1: nat, n2: nat, n3: nat, n4: nat, n5: nat, n6: nat, n7: nat)
    requires n0 < 0x1_0000_0000 && n1 == n0 / 16 && n2 == n1 / 16 && n3 == n2 / 16
    requires n4 == n3 / 16 && n5 == n4 / 16 && n6 == n5 / 16 && n7 == n6 / 16
    ensures Odd(n0) <==>
      (Par4(n0) + Par4(n1) + Par4(n2) + Par4(n3) + Par4(n4) + Par4(n5) + Par4(n6) + Par4(n7)) % 2 == 1
  {
    assert !Odd(0);
    hide Par4, Odd;
    assert n1 < 0x1000_0000 && n2 < 0x100_0000 && n3 < 0x10_0000 && n4 < 0x1_0000;
    assert n5 < 0x1000 && n6 < 0x100 && n7 < 0x10;
    ParityAdd(n7, 0);
    ParityAdd(n6, Par4(n7));
    ParityAdd(n5, Par4(n6) + Par4(n7));
    ParityAdd(n4, Par4(n5) + (Par4(n6) + Par4(n7)));
    ParityAdd(n3, Par4(n4) + (Par4(n5) + (Par4(n6) + Par4(n7))));
    ParityAdd(n2, Par4(n3) + (Par4(n4) + (Par4(n5) + (Par4(n6) + Par4(n7)))));
    ParityAdd(n1, Par4(n2) + (Par4(n3) + (Par4(n4) + (Par4(n5) + (Par4(n6) + Par4(n7))))));
    ParityAdd(n0, Par4(n1) + (Par4(n2) + (Par4(n3) + (Par4(n4) + (Par4(n5) + (Par4(n6) + Par4(n7)))))));
  }

  lemma ParityAdd(v: nat, s: nat)
    requires Odd(v / 16) <==> s % 2 == 1
    ensures Odd(v) <==> (Par4(v) + s) % 2 == 1
  {
    OddNibble(v);
    Par4IsBit(v);
    hide Odd, Par4;
  }

  lemma NibblesNumber(n0: nat, n1: nat, n2: nat, n3: nat, n4: nat, n5: nat, n6: nat, n7: nat)
    requires n1 == n0 / 16 && n2 == n1 / 16 && n3 == n2 / 16
    requires n4 == n3 / 16 && n5 == n4 / 16 && n6 == n5 / 16 && n7 == n6 / 16
    ensures NibbleBits(Gather(n0), 8) == Par4(n0) + Par4(n1) * 16 + Par4(n2) * 256 + Par4(n3) * 4096 + Par4(n4) * 65536
      + Par4(n5) * 1048576 + Par4(n6) * 16777216 + Par4(n7) * 268435456
  {
    assert NibbleBits(Gather(n7 / 16), 0) == 0;
    hide Par4, Gather, NibbleBits;
    NibbleBitsStep(n0, 8); NibbleBitsStep(n1, 7); NibbleBitsStep(n2, 6); NibbleBitsStep(n3, 5);
    NibbleBitsStep(n4, 4); NibbleBitsStep(n5, 3); NibbleBitsStep(n6, 2); NibbleBitsStep(n7, 1);
  }
}
