/**
  The bitwise CCITT CRC-16 of the CPU stressor. Polynomials over GF(2) are numbers: bit `e` is
  the coefficient of x^e and addition is exclusive or.
 */
module Crc {
  import opened Bits
  import opened Parity

  /** x^16 + x^12 + x^5 + 1, bit-reversed with its top term left out. */
  const POLY: nat := 0x8408
  const ONES: nat := 0xffff
  /** The register after a message followed by its own check sequence (RFC 1662, Appendix C.2). */
  const GOOD_FCS: nat := 0xf0b8

  /** One message bit into the register. */
  function StepBit(crc: nat, bit: bool): nat {
    if (crc % 2 == 1) != bit then Xor(crc / 2, POLY) else crc / 2
  }

  /** A sequence of bits into the register. */
  function Run(crc: nat, bits: seq<bool>): nat {
    if bits == [] then crc else StepBit(Run(crc, bits[..|bits| - 1]), bits[|bits| - 1])
  }

  /** The lowest `count` bits of a byte, lowest first. */
  function ByteBits(v: nat, count: nat): (b: seq<bool>)
    ensures |b| == count
  {
    seq(count, i requires 0 <= i => Has(v, i))
  }

  function MessageBits(data: seq<nat>): seq<bool> {
    if data == [] then [] else MessageBits(data[..|data| - 1]) + ByteBits(data[|data| - 1], 8)
  }

  /** The returned value: the register complemented, its bytes swapped. */
  function Checksum(crc: nat): nat
    requires crc <= ONES
  {
    (ONES - crc) % 256 * 256 + (ONES - crc) / 256
  }

  lemma {:induction false} RunAppend(crc: nat, a: seq<bool>, b: seq<bool>)
    ensures Run(crc, a + b) == Run(Run(crc, a), b)
    decreases |b|
  {
    if b == [] {
      assert a + b == a;
    } else {
      var n := |b| - 1;
      assert (a + b)[..|a + b| - 1] == a + b[..n];
      RunAppend(crc, a, b[..n]);
    }
  }

  lemma Powers()
    ensures Pow2(3) == 8 && Pow2(10) == 1024 && Pow2(15) == 32768 && Pow2(16) == 65536
    ensures Pow2(5) == 32 && Pow2(12) == 4096 && Pow2(8) == 256
  {
    assert Pow2(3) == 8 && Pow2(4) == 16 && Pow2(5) == 32;
    Pow2Add(4, 4); Pow2Add(5, 5); Pow2Add(5, 10); Pow2Add(8, 8); Pow2Add(4, 8);
  }

  /** The reversed polynomial has bits 15, 10 and 3. */
  lemma PolyBits(i: nat)
    ensures Has(POLY, i) <==> i == 15 || i == 10 || i == 3
    ensures POLY == Xor(Xor(Pow2(15), Pow2(10)), Pow2(3))
  {
    Powers();
    var a := Xor(Pow2(15), Pow2(10));
    HasPow2(15, 10); HasPow2(15, 3); HasPow2(10, 3); HasXor(Pow2(15), Pow2(10), 3);
    Toggle(Pow2(15), 10);
    Toggle(a, 3);
    HasPow2(15, i); HasPow2(10, i); HasPow2(3, i);
    HasXor(Pow2(15), Pow2(10), i);
    HasXor(a, Pow2(3), i);
  }

  lemma StepBelow(crc: nat, bit: bool)
    requires crc <= ONES
    ensures StepBit(crc, bit) <= ONES
  {
    Powers();
    XorBelow(crc / 2, POLY, 16);
  }

  lemma {:induction false} RunBelow(crc: nat, bits: seq<bool>)
    requires crc <= ONES
    ensures Run(crc, bits) <= ONES
    decreases |bits|
  {
    if bits != [] {
      RunBelow(crc, bits[..|bits| - 1]);
      StepBelow(Run(crc, bits[..|bits| - 1]), bits[|bits| - 1]);
    }
  }

  /**
    `ccitt_crc16`: the register over the bits of the message, each byte lowest bit first,
    complemented and byte-swapped; an empty message gives 0.
   */
  method Ccitt(data: seq<nat>) returns (r: nat)
    requires forall v | v in data :: v < 256
    ensures Run(ONES, MessageBits(data)) <= ONES
    ensures r == Checksum(Run(ONES, MessageBits(data)))
  {
    if |data| == 0 { return 0; }
    hide StepBit, Has, Run, MessageBits, ByteBits, Shr;
    assert forall v: nat :: Shr(v, 0) == v by { NoShift(); }
    RunNothing();
    var crc, k := ONES, 0;
    while k < |data|
      invariant 0 <= k <= |data| && crc == Run(ONES, MessageBits(data[..k]))
    {
      var val, i := data[k], 0;
      ghost var before := MessageBits(data[..k]);
      NextByte(data, k);
      while i < 8
        invariant 0 <= i <= 8 && crc == Run(ONES, before + ByteBits(data[k], i))
        invariant val == Shr(data[k], i)
      {
        FeedBit(before, data[k], i);
        ValBit(data[k], i);
        crc := StepBit(crc, val % 2 == 1);
        val := val / 2;
        i := i + 1;
      }
      k := k + 1;
    }
    assert data[..k] == data;
    RunBelow(ONES, MessageBits(data));
    crc := ONES - crc;
    return crc % 256 * 256 + crc / 256;
  }

  lemma RunNothing()
    ensures forall data: seq<nat> :: Run(ONES, MessageBits(data[..0])) == ONES
  {}

  lemma NextByte(data: seq<nat>, k: nat)
    requires k < |data|
    ensures MessageBits(data[..k]) + ByteBits(data[k], 0) == MessageBits(data[..k])
    ensures MessageBits(data[..k + 1]) == MessageBits(data[..k]) + ByteBits(data[k], 8)
  {
    assert data[..k + 1][..k] == data[..k];
  }

  lemma NoShift()
    ensures forall v: nat :: Shr(v, 0) == v
  {}

  /** `val`, shifted right once per bit, shows the bits of the byte in turn. */
  lemma ValBit(v: nat, i: nat)
    ensures Has(v, i) <==> Shr(v, i) % 2 == 1
    ensures Shr(v, i + 1) == Shr(v, i) / 2
  {
    HasShr(v, i, 0);
    ShrLast(v, i);
  }

  lemma FeedBit(before: seq<bool>, v: nat, i: nat)
    ensures Run(ONES, before + ByteBits(v, i + 1)) == StepBit(Run(ONES, before + ByteBits(v, i)), Has(v, i))
  {
    var bits := before + ByteBits(v, i + 1);
    assert bits[..|bits| - 1] == before + ByteBits(v, i);
    assert bits[|bits| - 1] == Has(v, i);
  }

  /** The register that sees `j` set bits from zero. */
  function Idle(j: nat): nat {
    if j == 0 then 0 else StepBit(Idle(j - 1), true)
  }

  function Flip(x: nat, p: nat): int
    requires p > 0
  {
    if x / p % 2 == 1 then x - p else x + p
  }

  lemma FlipIsXor(x: nat, k: nat)
    ensures Flip(x, Pow2(k)) == Xor(x, Pow2(k))
  {
    HasDiv(x, k);
    Toggle(x, k);
  }

  /** The feedback in plain arithmetic. */
  lemma StepNumbers(x: nat, a: nat, b: nat, c: nat)
    requires x % 2 == 0 && a == Flip(x / 2, 32768) && b == Flip(a, 1024) && c == Flip(b, 8)
    ensures StepBit(x, true) == c
  {
    Powers();
    PolyBits(0);
    var h := x / 2;
    FlipIsXor(h, 15); FlipIsXor(a, 10); FlipIsXor(b, 3);
    XorFacts(h, Pow2(15), Pow2(10));
    XorFacts(h, Xor(Pow2(15), Pow2(10)), Pow2(3));
  }

  lemma StepOdd(x: nat)
    requires x % 2 == 1
    ensures StepBit(x, true) == x / 2
  {}

  lemma Idle4()
    ensures Idle(4) == 0xf78f
  {
    hide StepBit;
    StepNumbers(0, 0x8000, 0x8400, 0x8408);
    StepNumbers(0x8408, 0xc204, 0xc604, 0xc60c);
    StepNumbers(0xc60c, 0xe306, 0xe706, 0xe70e);
    StepNumbers(0xe70e, 0xf387, 0xf787, 0xf78f);
    assert Idle(1) == 0x8408 && Idle(2) == 0xc60c && Idle(3) == 0xe70e;
  }

  lemma Idle8()
    ensures Idle(8) == 0xf78
  {
    hide StepBit;
    Idle4();
    StepOdd(0xf78f); StepOdd(0x7bc7); StepOdd(0x3de3); StepOdd(0x1ef1);
    assert Idle(5) == 0x7bc7 && Idle(6) == 0x3de3 && Idle(7) == 0x1ef1;
  }

  lemma Idle12()
    ensures Idle(12) == 0x7370
  {
    hide StepBit;
    Idle8();
    StepNumbers(0xf78, 0x87bc, 0x83bc, 0x83b4);
    StepNumbers(0x83b4, 0xc1da, 0xc5da, 0xc5d2);
    StepNumbers(0xc5d2, 0xe2e9, 0xe6e9, 0xe6e1);
    StepOdd(0xe6e1);
    assert Idle(9) == 0x83b4 && Idle(10) == 0xc5d2 && Idle(11) == 0xe6e1;
  }

  /** Sixteen set bits from zero leave the good-FCS value. */
  lemma Idle16()
    ensures Idle(16) == GOOD_FCS
  {
    hide StepBit;
    Idle12();
    StepNumbers(0x7370, 0xb9b8, 0xbdb8, 0xbdb0);
    StepNumbers(0xbdb0, 0xded8, 0xdad8, 0xdad0);
    StepNumbers(0xdad0, 0xed68, 0xe968, 0xe960);
    StepNumbers(0xe960, 0xf4b0, 0xf0b0, 0xf0b8);
    assert Idle(13) == 0xbdb0 && Idle(14) == 0xdad0 && Idle(15) == 0xe960;
  }

  /** The complements of the lowest `j` bits of `crc`. */
  function Complements(crc: nat, j: nat): (b: seq<bool>)
    ensures |b| == j
  {
    seq(j, i requires 0 <= i => !Has(crc, i))
  }

  /** The register is linear: equal feedback on both sides of an exclusive or cancels. */
  lemma StepLinear(a: nat, k: nat)
    ensures StepBit(Xor(a, k), a % 2 == 0) == Xor(a / 2, StepBit(k, true))
  {
    hide Xor;
    XorHalves(a, k);
    XorFacts(a / 2, k / 2, POLY);
  }

  /** Fed with the complements of its own bits, the register forgets its start. */
  lemma {:induction false} FeedComplements(crc: nat, j: nat)
    ensures Run(crc, Complements(crc, j)) == Xor(Shr(crc, j), Idle(j))
  {
    hide StepBit, Xor;
    if j == 0 {
      XorFacts(crc, 0, 0);
    } else {
      FeedComplements(crc, j - 1);
      var a, bits := Shr(crc, j - 1), Complements(crc, j);
      assert bits[..j - 1] == Complements(crc, j - 1);
      HasShr(crc, j - 1, 0);
      ShrLast(crc, j - 1);
      StepLinear(a, Idle(j - 1));
      assert bits[j - 1] == (a % 2 == 0);
    }
  }

  lemma {:induction false} ShrAll(x: nat, w: nat)
    requires x < Pow2(w)
    ensures Shr(x, w) == 0
  {
    if w > 0 { ShrAll(x / 2, w - 1); }
  }

  /** The check sequence, high byte first, spells the complements of the register. */
  lemma CheckBits(crc: nat)
    requires crc <= ONES
    ensures MessageBits([Checksum(crc) / 256, Checksum(crc) % 256]) == Complements(crc, 16)
  {
    var c, r := ONES - crc, Checksum(crc);
    assert r / 256 == c % 256 && r % 256 == c / 256;
    TwoBytes(c % 256, c / 256);
    var bits := ByteBits(c % 256, 8) + ByteBits(c / 256, 8);
    forall i | 0 <= i < 16 ensures bits[i] == !Has(crc, i) {
      Powers();
      HasNot(crc, 16, i);
      if i < 8 {
        HasTruncated(c, 8, i);
      } else {
        Shr8(c);
        HasShr(c, 8, i - 8);
      }
    }
    assert bits == Complements(crc, 16);
  }

  lemma TwoBytes(a: nat, b: nat)
    ensures MessageBits([a, b]) == ByteBits(a, 8) + ByteBits(b, 8)
  {
    assert [a, b][..1] == [a] && [a][..0] == [];
    assert MessageBits([a]) == [] + ByteBits(a, 8) == ByteBits(a, 8);
  }

  lemma {:induction false} MessageAppend(a: seq<nat>, b: seq<nat>)
    ensures MessageBits(a + b) == MessageBits(a) + MessageBits(b)
    decreases |b|
  {
    if b == [] {
      assert a + b == a;
    } else {
      assert (a + b)[..|a + b| - 1] == a + b[..|b| - 1];
      MessageAppend(a, b[..|b| - 1]);
    }
  }

  /** Appending the returned value, high byte first, always leaves the good-FCS value. */
  lemma GoodFcs(data: seq<nat>)
    ensures Run(ONES, MessageBits(data)) <= ONES
    ensures var r := Checksum(Run(ONES, MessageBits(data)));
      Run(ONES, MessageBits(data + [r / 256, r % 256])) == GOOD_FCS
  {
    var crc := Run(ONES, MessageBits(data));
    RunBelow(ONES, MessageBits(data));
    var r := Checksum(crc);
    MessageAppend(data, [r / 256, r % 256]);
    RunAppend(ONES, MessageBits(data), MessageBits([r / 256, r % 256]));
    CheckBits(crc);
    FeedComplements(crc, 16);
    Powers();
    ShrAll(crc, 16);
    Idle16();
    XorFacts(GOOD_FCS, 0, 0);
  }

  /** The bits of the register after one step; bit 15 is the feedback itself. */
  lemma StepBits(crc: nat, bit: bool, i: nat)
    requires crc <= ONES && i < 16
    ensures Has(StepBit(crc, bit), i) <==> (Has(crc, i + 1) != (((crc % 2 == 1) != bit) && Has(POLY, i)))
    ensures i == 15 ==> !Has(crc, i + 1) && Has(POLY, i)
  {
    HasHalf(crc, i);
    HasXor(crc / 2, POLY, i);
    PolyBits(i);
    Powers();
    if i == 15 && Has(crc, 16) { HasBelow(crc, 16, 16); }
  }

  /** Up to 16 bits can be read back off the top of the register. */
  lemma {:induction false} BitsReadBack(crc: nat, u: seq<bool>, v: seq<bool>)
    requires crc <= ONES && |u| == |v| <= 16
    requires forall i: nat | 16 - |u| <= i < 16 :: Has(Run(crc, u), i) == Has(Run(crc, v), i)
    ensures u == v
    decreases |u|
  {
    hide StepBit, Has;
    if |u| > 0 {
      var k := |u| - 1;
      var p, q := Run(crc, u[..k]), Run(crc, v[..k]);
      RunBelow(crc, u[..k]);
      RunBelow(crc, v[..k]);
      StepBits(p, u[k], 15);
      StepBits(q, v[k], 15);
      forall i: nat | 16 - k <= i < 16 ensures Has(p, i) == Has(q, i) {
        StepBits(p, u[k], i - 1);
        StepBits(q, v[k], i - 1);
        assert Has(Run(crc, u), i - 1) == Has(Run(crc, v), i - 1);
      }
      BitsReadBack(crc, u[..k], v[..k]);
      assert Has(Run(crc, u), 15) == Has(Run(crc, v), 15);
      assert u == u[..k] + [u[k]] && v == v[..k] + [v[k]];
    }
  }

  lemma {:induction false} ByteFromBits(a: nat, b: nat)
    requires a < 256 && b < 256 && ByteBits(a, 8) == ByteBits(b, 8)
    ensures a == b
  {
    forall i: nat ensures Has(a, i) == Has(b, i) {
      Powers();
      if i < 8 {
        assert ByteBits(a, 8)[i] == ByteBits(b, 8)[i];
      } else {
        if Has(a, i) { HasBelow(a, 8, i); }
        if Has(b, i) { HasBelow(b, 8, i); }
      }
    }
    SameBits(a, b);
  }

  /** Two bytes complete a message to the good-FCS value only if they are its check sequence. */
  lemma OnlyTheChecksumFits(data: seq<nat>, a: nat, b: nat)
    requires a < 256 && b < 256
    ensures Run(ONES, MessageBits(data)) <= ONES
    ensures var r := Checksum(Run(ONES, MessageBits(data)));
      Run(ONES, MessageBits(data + [a, b])) == GOOD_FCS <==> a == r / 256 && b == r % 256
  {
    GoodFcs(data);
    var crc := Run(ONES, MessageBits(data));
    var r := Checksum(crc);
    if Run(ONES, MessageBits(data + [a, b])) == GOOD_FCS {
      var u, v := MessageBits([a, b]), MessageBits([r / 256, r % 256]);
      MessageAppend(data, [a, b]);
      MessageAppend(data, [r / 256, r % 256]);
      RunAppend(ONES, MessageBits(data), u);
      RunAppend(ONES, MessageBits(data), v);
      TwoBytes(a, b);
      TwoBytes(r / 256, r % 256);
      BitsReadBack(crc, u, v);
      assert ByteBits(a, 8) == u[..8] && ByteBits(b, 8) == u[8..];
      assert ByteBits(r / 256, 8) == v[..8] && ByteBits(r % 256, 8) == v[8..];
      ByteFromBits(a, r / 256);
      ByteFromBits(b, r % 256);
    }
  }

  lemma StepInjective(x: nat, y: nat, bit: bool)
    requires x <= ONES && y <= ONES && StepBit(x, bit) == StepBit(y, bit)
    ensures x == y
  {
    hide StepBit, Has;
    StepBits(x, bit, 15);
    StepBits(y, bit, 15);
    forall i: nat ensures Has(x, i) == Has(y, i) {
      if i == 0 {
        LowestBit(x);
        LowestBit(y);
      } else if i < 16 {
        StepBits(x, bit, i - 1);
        StepBits(y, bit, i - 1);
      } else {
        NoHighBits(x, i);
        NoHighBits(y, i);
      }
    }
    SameBits(x, y);
  }

  lemma NoHighBits(x: nat, i: nat)
    requires x <= ONES && i >= 16
    ensures !Has(x, i)
  {
    Powers();
    if Has(x, i) { HasBelow(x, 16, i); }
  }

  lemma {:induction false} RunInjective(x: nat, y: nat, bits: seq<bool>)
    requires x <= ONES && y <= ONES && x != y
    ensures Run(x, bits) != Run(y, bits)
    decreases |bits|
  {
    hide StepBit;
    if bits != [] {
      var k := |bits| - 1;
      RunInjective(x, y, bits[..k]);
      RunBelow(x, bits[..k]);
      RunBelow(y, bits[..k]);
      if Run(x, bits) == Run(y, bits) { StepInjective(Run(x, bits[..k]), Run(y, bits[..k]), bits[k]); }
    }
  }

  /** Two runs of bits that differ, but only within 16 places in a row, leave different registers. */
  lemma BurstInBits(crc: nat, a: seq<bool>, u: seq<bool>, v: seq<bool>, b: seq<bool>)
    requires crc <= ONES && |u| == |v| <= 16 && u != v
    ensures Run(crc, a + u + b) != Run(crc, a + v + b)
  {
    hide StepBit, Has, Run;
    var r := Run(crc, a);
    RunBelow(crc, a);
    RunAppend(crc, a, u);
    RunAppend(crc, a, v);
    if Run(r, u) == Run(r, v) { BitsReadBack(r, u, v); }
    RunBelow(r, u);
    RunBelow(r, v);
    RunAppend(crc, a + u, b);
    RunAppend(crc, a + v, b);
    RunInjective(Run(r, u), Run(r, v), b);
  }

  lemma {:induction false} MessageLength(data: seq<nat>)
    ensures |MessageBits(data)| == 8 * |data|
  {
    if data != [] { MessageLength(data[..|data| - 1]); }
  }

  ghost predicate Bytes(data: seq<nat>) {
    forall i | 0 <= i < |data| :: data[i] < 256
  }

  lemma {:induction false} MessageInjective(data: seq<nat>, other: seq<nat>)
    requires Bytes(data) && Bytes(other)
    requires |data| == |other| && MessageBits(data) == MessageBits(other)
    ensures data == other
  {
    hide ByteBits;
    if data != [] {
      var k := |data| - 1;
      var d, o := data[..k], other[..k];
      MessageLength(d);
      MessageLength(o);
      assert MessageBits(data)[..8 * k] == MessageBits(d) && MessageBits(other)[..8 * k] == MessageBits(o);
      assert MessageBits(data)[8 * k..] == ByteBits(data[k], 8) && MessageBits(other)[8 * k..] == ByteBits(other[k], 8);
      MessageInjective(d, o);
      ByteFromBits(data[k], other[k]);
      assert data == d + [data[k]] && other == o + [other[k]];
    }
  }

  lemma ChecksumInjective(x: nat, y: nat)
    requires x <= ONES && y <= ONES && Checksum(x) == Checksum(y)
    ensures x == y
  {
    var a, b := ONES - x, ONES - y;
    assert a / 256 < 256 && b / 256 < 256;
    SameDigits(a % 256, a / 256, b % 256, b / 256);
  }

  lemma SameDigits(h: nat, l: nat, h': nat, l': nat)
    requires l < 256 && l' < 256 && h * 256 + l == h' * 256 + l'
    ensures h == h' && l == l'
  {}

  /** The bits differ at most between places `s` and `s + 16`. */
  ghost predicate AgreeOutside(x: seq<bool>, y: seq<bool>, s: nat) {
    |x| == |y| && forall i | 0 <= i < |x| && !(s <= i < s + 16) :: x[i] == y[i]
  }

  /**
    Every burst of up to 16 bits is detected: two different messages of one length whose bits
    differ only between places `s` and `s + 16` have different checksums.
   */
  lemma BurstDetected(data: seq<nat>, other: seq<nat>, s: nat)
    requires Bytes(data) && Bytes(other) && data != other
    requires |data| == |other| && AgreeOutside(MessageBits(data), MessageBits(other), s)
    ensures Run(ONES, MessageBits(data)) <= ONES && Run(ONES, MessageBits(other)) <= ONES
    ensures Checksum(Run(ONES, MessageBits(data))) != Checksum(Run(ONES, MessageBits(other)))
  {
    hide StepBit, Has, Run, MessageBits, ByteBits, Checksum, AgreeOutside;
    var x, y := MessageBits(data), MessageBits(other);
    if x == y { MessageInjective(data, other); }
    var a, u, v, b := Parts(x, y, s);
    BurstInBits(ONES, a, u, v, b);
    RunBelow(ONES, x);
    RunBelow(ONES, y);
    if Checksum(Run(ONES, x)) == Checksum(Run(ONES, y)) { ChecksumInjective(Run(ONES, x), Run(ONES, y)); }
  }

  lemma Parts(x: seq<bool>, y: seq<bool>, s: nat) returns (a: seq<bool>, u: seq<bool>, v: seq<bool>, b: seq<bool>)
    requires AgreeOutside(x, y, s) && x != y
    ensures x == a + u + b && y == a + v + b && u != v && |u| == |v| <= 16
  {
    var n := |x|;
    var lo := if s < n then s else n;
    var hi := if s + 16 < n then s + 16 else n;
    a, u, v, b := x[..lo], x[lo..hi], y[lo..hi], x[hi..];
    assert x == a + u + b && y == a + v + b;
  }

  /** Three terms in the polynomial: a step flips the parity of the register exactly on a set bit. */
  lemma StepParity(crc: nat, bit: bool)
    ensures Odd(StepBit(crc, bit)) <==> Odd(crc) != bit
  {
    OddXor(crc / 2, POLY);
    PolyOdd();
    OddHalf(crc);
  }

  lemma PolyOdd()
    ensures Odd(POLY)
  {
    assert Odd(0x8408) == Odd(0x1081);
    assert Odd(0x1081) != Odd(0x108);
    assert Odd(0x108) == Odd(0x21);
    assert Odd(0x21) != Odd(1);
  }

  /** An odd number of the bits are set. */
  ghost predicate OddBits(bits: seq<bool>) {
    bits != [] && OddBits(bits[..|bits| - 1]) != bits[|bits| - 1]
  }

  lemma {:induction false} RunParity(crc: nat, bits: seq<bool>)
    ensures Odd(Run(crc, bits)) <==> Odd(crc) != OddBits(bits)
    decreases |bits|
  {
    hide StepBit, Odd;
    if bits != [] {
      RunParity(crc, bits[..|bits| - 1]);
      StepParity(Run(crc, bits[..|bits| - 1]), bits[|bits| - 1]);
    }
  }

  /** The places where two runs of bits differ. */
  ghost function Differences(x: seq<bool>, y: seq<bool>): nat
    requires |x| == |y|
  {
    if x == [] then 0
    else
      var k := |x| - 1;
      Differences(x[..k], y[..k]) + if x[k] != y[k] then 1 else 0
  }

  lemma {:induction false} DifferencesParity(x: seq<bool>, y: seq<bool>)
    requires |x| == |y|
    ensures Differences(x, y) % 2 == 1 <==> OddBits(x) != OddBits(y)
  {
    if x != [] { DifferencesParity(x[..|x| - 1], y[..|y| - 1]); }
  }

  /** Two messages of one length whose bits differ in an odd number of places have different checksums. */
  lemma OddErrorsDetected(data: seq<nat>, other: seq<nat>)
    requires |MessageBits(data)| == |MessageBits(other)|
    requires Differences(MessageBits(data), MessageBits(other)) % 2 == 1
    ensures Run(ONES, MessageBits(data)) <= ONES && Run(ONES, MessageBits(other)) <= ONES
    ensures Checksum(Run(ONES, MessageBits(data))) != Checksum(Run(ONES, MessageBits(other)))
  {
    hide Run, MessageBits, Checksum, Odd, Differences;
    var x, y := MessageBits(data), MessageBits(other);
    RunBelow(ONES, x);
    RunBelow(ONES, y);
    RunParity(ONES, x);
    RunParity(ONES, y);
    DifferencesParity(x, y);
    if Checksum(Run(ONES, x)) == Checksum(Run(ONES, y)) { ChecksumInjective(Run(ONES, x), Run(ONES, y)); }
  }

  /** The generator x^16 + x^12 + x^5 + 1. */
  ghost const GENERATOR: nat := Xor(Xor(Pow2(16), Pow2(12)), Xor(Pow2(5), Pow2(0)))

  /** Multiplication of polynomials over GF(2). */
  ghost function Times(a: nat, b: nat): nat {
    if a == 0 then 0 else Xor(if a % 2 == 1 then b else 0, 2 * Times(a / 2, b))
  }

  /** The bits of a message, first bit highest, as a polynomial. */
  ghost function MessagePoly(bits: seq<bool>): nat {
    if bits == [] then 0 else 2 * MessagePoly(bits[..|bits| - 1]) + (if bits[|bits| - 1] then 1 else 0)
  }

  /** What the generator divides: the message times x^16, plus the all-ones start shifted past it. */
  ghost function Dividend(bits: seq<bool>): nat {
    Xor(MessagePoly(bits) * 0x10000, ONES * Pow2(|bits|))
  }

  /** The lowest `w` bits of `x` in reverse order. */
  ghost function Reversed(x: nat, w: nat): nat {
    if w == 0 then 0 else Reversed(x / 2, w - 1) + (if x % 2 == 1 then Pow2(w - 1) else 0)
  }

  lemma GeneratorBits(i: nat)
    ensures Has(GENERATOR, i) <==> i == 16 || i == 12 || i == 5 || i == 0
  {
    HasPow2(16, i); HasPow2(12, i); HasPow2(5, i); HasPow2(0, i);
    HasXor(Pow2(16), Pow2(12), i); HasXor(Pow2(5), Pow2(0), i);
    HasXor(Xor(Pow2(16), Pow2(12)), Xor(Pow2(5), Pow2(0)), i);
  }

  lemma {:induction false} HasReversed(x: nat, w: nat, i: nat)
    ensures Reversed(x, w) < Pow2(w)
    ensures Has(Reversed(x, w), i) <==> i < w && Has(x, w - 1 - i)
  {
    if w == 0 {
      HasZero(i);
    } else {
      var y := Reversed(x / 2, w - 1);
      HasReversed(x / 2, w - 1, i);
      HasReversed(x / 2, w - 1, w - 1);
      Toggle(y, w - 1);
      HasXor(y, Pow2(w - 1), i);
      HasPow2(w - 1, i);
    }
  }

  lemma XorDouble(a: nat, b: nat)
    ensures Xor(2 * a, 2 * b) == 2 * Xor(a, b)
  {
    XorHalves(2 * a, 2 * b);
  }

  /** One more bit doubles the dividend and adds the bit at x^16. */
  lemma DividendNext(bits: seq<bool>, bit: bool)
    ensures Dividend(bits + [bit]) == Xor(2 * Dividend(bits), if bit then 0x10000 else 0)
  {
    hide Xor;
    var next := bits + [bit];
    assert next[..|next| - 1] == bits;
    hide Pow2;
    assert Pow2(|next|) == 2 * Pow2(|bits|) by { Pow2Step(|bits|); }
    var m, s, b := MessagePoly(bits) * 0x10000, ONES * Pow2(|bits|), if bit then 0x10000 else 0;
    ShiftedMessage(MessagePoly(bits), bit);
    XorDouble(m, s);
    XorSwap(2 * m, b, 2 * s);
  }

  lemma XorSwap(x: nat, y: nat, z: nat)
    ensures Xor(Xor(x, y), z) == Xor(Xor(x, z), y)
  {
    hide Xor;
    XorFacts(x, y, z);
    XorFacts(x, z, y);
    XorFacts(y, z, 0);
  }

  lemma ShiftedMessage(p: nat, bit: bool)
    ensures (2 * p + (if bit then 1 else 0)) * 0x10000 == Xor(2 * (p * 0x10000), if bit then 0x10000 else 0)
  {
    hide Xor, Pow2, Has;
    var x := 2 * p * 0x10000;
    Powers();
    XorFacts(x, 0, 0);
    LowestBit(2 * p);
    HasMultiple(2 * p, 16, 16);
    Toggle(x, 16);
  }

  lemma {:induction false} HasMultiple(p: nat, k: nat, i: nat)
    ensures Has(p * Pow2(k), i) <==> i >= k && Has(p, i - k)
  {
    if k > 0 {
      assert p * Pow2(k) == 2 * (p * Pow2(k - 1));
      if i > 0 { HasMultiple(p, k - 1, i - 1); }
    }
  }

  /** A register step, read in reverse: times x, plus the message bit, minus the generator if it fits. */
  lemma StepReversed(crc: nat, bit: bool)
    requires crc <= ONES
    ensures var d := (crc % 2 == 1) != bit;
      Xor(2 * Reversed(crc, 16), if bit then 0x10000 else 0)
      == Xor(if d then GENERATOR else 0, Reversed(StepBit(crc, bit), 16))
  {
    var d := (crc % 2 == 1) != bit;
    var b, g := if bit then 0x10000 else 0, if d then GENERATOR else 0;
    var r, r' := Reversed(crc, 16), Reversed(StepBit(crc, bit), 16);
    forall i: nat ensures Has(Xor(2 * r, b), i) == Has(Xor(g, r'), i) { StepReversedBit(crc, bit, i); }
    SameBits(Xor(2 * r, b), Xor(g, r'));
  }

  lemma StepReversedBit(crc: nat, bit: bool, i: nat)
    requires crc <= ONES
    ensures var d := (crc % 2 == 1) != bit;
      Has(Xor(2 * Reversed(crc, 16), if bit then 0x10000 else 0), i)
      == Has(Xor(if d then GENERATOR else 0, Reversed(StepBit(crc, bit), 16)), i)
  {
    hide StepBit, Xor, Reversed, Pow2, Has;
    var d := (crc % 2 == 1) != bit;
    var b, g := if bit then 0x10000 else 0, if d then GENERATOR else 0;
    var r, r' := Reversed(crc, 16), Reversed(StepBit(crc, bit), 16);
    HasXor(2 * r, b, i);
    HasXor(g, r', i);
    HasZero(i);
    assert Pow2(16) == 0x10000 by { Powers(); }
    HasPow2(16, i);
    GeneratorBits(i);
    HasReversed(StepBit(crc, bit), 16, i);
    if i > 0 { HasReversed(crc, 16, i - 1); }
    if i < 16 {
      StepBits(crc, bit, 15 - i);
      PolyBits(15 - i);
    }
    LowestBit(crc);
    Doubled(r, i);
  }

  lemma Doubled(r: nat, i: nat)
    ensures Has(2 * r, i) <==> i > 0 && Has(r, i - 1)
  {}

  /** The register, reversed, is a remainder of the dividend by the generator. */
  lemma {:induction false} RegisterIsRemainder(bits: seq<bool>) returns (q: nat)
    ensures Run(ONES, bits) <= ONES
    ensures Dividend(bits) == Xor(Times(q, GENERATOR), Reversed(Run(ONES, bits), 16))
    decreases |bits|
  {
    hide StepBit, Dividend, Reversed, Times, Xor;
    RunBelow(ONES, bits);
    if bits == [] {
      q := 0;
      RemainderStart();
    } else {
      var init, bit := bits[..|bits| - 1], bits[|bits| - 1];
      var q0 := RegisterIsRemainder(init);
      assert bits == init + [bit];
      var crc := Run(ONES, init);
      q := 2 * q0 + (if (crc % 2 == 1) != bit then 1 else 0);
      RemainderStep(init, bit, q0, crc);
    }
  }

  lemma RemainderStart()
    ensures Dividend([]) == Xor(Times(0, GENERATOR), Reversed(ONES, 16))
  {
    hide Reversed, Xor, Has, Pow2;
    Powers();
    assert Pow2(0) == 1 by { PowerZero(); }
    XorFacts(ONES, 0, 0);
    forall i: nat ensures Has(Reversed(ONES, 16), i) == Has(ONES, i) {
      HasReversed(ONES, 16, i);
      HasAllOnes(16, i);
      if i < 16 { HasAllOnes(16, 15 - i); }
    }
    SameBits(Reversed(ONES, 16), ONES);
  }

  lemma PowerZero()
    ensures Pow2(0) == 1
  {}

  lemma RemainderStep(init: seq<bool>, bit: bool, q0: nat, crc: nat)
    requires crc <= ONES && Dividend(init) == Xor(Times(q0, GENERATOR), Reversed(crc, 16))
    ensures Dividend(init + [bit])
         == Xor(Times(2 * q0 + (if (crc % 2 == 1) != bit then 1 else 0), GENERATOR), Reversed(StepBit(crc, bit), 16))
  {
    hide StepBit, Reversed, Dividend, Xor, Times, Pow2;
    var d := (crc % 2 == 1) != bit;
    var b, g := if bit then 0x10000 else 0, if d then GENERATOR else 0;
    var q1, r, r' := Times(q0, GENERATOR), Reversed(crc, 16), Reversed(StepBit(crc, bit), 16);
    DividendNext(init, bit);
    XorDouble(q1, r);
    StepReversed(crc, bit);
    TimesStep(q0, d, GENERATOR);
    XorFacts(2 * q1, 2 * r, b);
    XorFacts(2 * q1, g, r');
    XorFacts(g, 2 * q1, 0);
  }

  lemma TimesStep(q: nat, d: bool, g: nat)
    ensures Times(2 * q + (if d then 1 else 0), g) == Xor(if d then g else 0, 2 * Times(q, g))
  {
    hide Xor;
    XorFacts(0, 0, 0);
    assert (2 * q + (if d then 1 else 0)) / 2 == q;
  }

  /** Multiplication distributes over addition. */
  lemma {:induction false} TimesXor(a: nat, b: nat, g: nat)
    ensures Times(Xor(a, b), g) == Xor(Times(a, g), Times(b, g))
    decreases a + b
  {
    if a + b == 0 {
      XorFacts(0, 0, 0);
    } else {
      TimesXor(a / 2, b / 2, g);
      XorHalves(a, b);
      hide Xor;
      TimesHalf(a, g); TimesHalf(b, g); TimesHalf(Xor(a, b), g);
      var u, v := Times(a / 2, g), Times(b / 2, g);
      var x, y := if a % 2 == 1 then g else 0, if b % 2 == 1 then g else 0;
      XorDouble(u, v);
      XorFour(x, 2 * u, y, 2 * v);
      XorFacts(g, 0, 0);
    }
  }

  lemma TimesHalf(a: nat, g: nat)
    ensures Times(a, g) == Xor(if a % 2 == 1 then g else 0, 2 * Times(a / 2, g))
  {
    XorFacts(0, 0, 0);
  }

  lemma XorFour(a: nat, b: nat, c: nat, d: nat)
    ensures Xor(Xor(a, b), Xor(c, d)) == Xor(Xor(a, c), Xor(b, d))
  {
    hide Xor;
    XorFacts(Xor(a, b), c, d);
    XorSwap(a, b, c);
    XorFacts(Xor(a, c), b, d);
  }

  /** A non-zero multiple of the generator has degree at least 16. */
  lemma {:induction false} MultipleHasHighBit(z: nat) returns (t: nat)
    requires z > 0
    ensures t >= 16 && Has(Times(z, GENERATOR), t)
  {
    hide Xor, Has;
    TimesHalf(z, GENERATOR);
    XorFacts(GENERATOR, 0, 0);
    if z == 1 {
      t := 16;
      GeneratorBits(16);
      assert Times(0, GENERATOR) == 0;
    } else {
      var u := MultipleHasHighBit(z / 2);
      t := u + 1;
      var g := if z % 2 == 1 then GENERATOR else 0;
      HasXor(g, 2 * Times(z / 2, GENERATOR), t);
      Doubled(Times(z / 2, GENERATOR), t);
      GeneratorBits(t);
      HasZero(t);
    }
  }

  /** Division by the generator has one remainder. */
  lemma RemainderUnique(q: nat, r: nat, q': nat, r': nat)
    requires r < 0x10000 && r' < 0x10000
    requires Xor(Times(q, GENERATOR), r) == Xor(Times(q', GENERATOR), r')
    ensures r == r'
  {
    hide Xor, Times, Has;
    var a, b := Times(q, GENERATOR), Times(q', GENERATOR);
    XorMove(a, r, b, r');
    TimesXor(q, q', GENERATOR);
    assert Pow2(16) == 0x10000 by { Powers(); }
    XorBelow(r, r', 16);
    if Xor(q, q') > 0 {
      var t := MultipleHasHighBit(Xor(q, q'));
      HasBelow(Xor(r, r'), 16, t);
    }
    TimesZero(GENERATOR);
    XorZero(r, r');
  }

  lemma TimesZero(g: nat)
    ensures Times(0, g) == 0
  {}

  lemma XorMove(a: nat, r: nat, b: nat, r': nat)
    requires Xor(a, r) == Xor(b, r')
    ensures Xor(a, b) == Xor(r, r')
  {
    hide Xor;
    XorFour(a, r, b, r');
    var s := Xor(a, r);
    XorFacts(s, s, 0);
    XorZero(Xor(a, b), Xor(r, r'));
  }

  lemma XorZero(x: nat, y: nat)
    ensures Xor(x, y) == 0 <==> x == y
  {
    hide Xor;
    XorFacts(x, x, y);
    XorFacts(x, y, 0);
    XorFacts(y, 0, 0);
  }

  /** The register, reversed, is the remainder of the message polynomial by the generator. */
  lemma RegisterIsTheRemainder(bits: seq<bool>, q: nat, r: nat)
    requires r < 0x10000
    ensures Dividend(bits) == Xor(Times(q, GENERATOR), r) ==> r == Reversed(Run(ONES, bits), 16)
    ensures exists p :: Dividend(bits) == Xor(Times(p, GENERATOR), Reversed(Run(ONES, bits), 16))
  {
    hide Xor, Times, Dividend, Reversed;
    var p := RegisterIsRemainder(bits);
    HasReversed(Run(ONES, bits), 16, 0);
    assert Pow2(16) == 0x10000 by { Powers(); }
    if Dividend(bits) == Xor(Times(q, GENERATOR), r) {
      RemainderUnique(q, r, p, Reversed(Run(ONES, bits), 16));
    }
  }
}
