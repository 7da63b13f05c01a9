/** The Internet checksum of the ICMP flood stressor (RFC 1071), on a little-endian host. */
module IcmpChecksum {
  import opened Bits
  import opened Stride

  type byte = x: nat | x < 256

  /** A 16-bit word in memory, low byte first. */
  function Word(low: byte, high: byte): (w: nat)
    ensures w <= 0xffff
  {
    low as int + 256 * (high as int)
  }

  /** The plain sum of the 16-bit words; an odd last byte counts as a word. */
  ghost function Total(b: seq<byte>): nat {
    if |b| == 0 then 0 else if |b| == 1 then b[0] else Word(b[0], b[1]) + Total(b[2..])
  }

  /** One's complement addition: the carry out of 16 bits is added back in. */
  function OnesAdd(a: nat, b: nat): nat {
    if a + b > 0xffff then a + b - 0xffff else a + b
  }

  /** The one's complement sum of the 16-bit words (section 1 of RFC 1071). */
  ghost function OnesSum(b: seq<byte>): nat {
    if |b| == 0 then 0 else if |b| == 1 then b[0] else OnesAdd(Word(b[0], b[1]), OnesSum(b[2..]))
  }

  /** The 16-bit value that `t` reduces to by adding carries back in. */
  function Norm(t: nat): nat {
    if t == 0 then 0 else 1 + (t - 1) % 0xffff
  }

  /** The carry is added back in, so 0xffff acts as zero; the low byte of a word comes first in memory. */
  lemma OnesLaws(a: nat, b: nat)
    requires a <= 0xffff && b <= 0xffff
    ensures OnesAdd(a, b) <= 0xffff && (a + b <= 0xffff ==> OnesAdd(a, b) == a + b)
    ensures a + b > 0xffff ==> OnesAdd(a, b) == (a + b) % 0x10000 + 1
    ensures Word(1, 0) == 1 && Word(0, 1) == 256
  {}

  lemma NormAdd(w: nat, t: nat)
    requires w <= 0xffff
    ensures OnesAdd(w, Norm(t)) == Norm(w + t)
  {
    if t > 0 {
      var q, m := (t - 1) / 0xffff, (t - 1) % 0xffff;
      if w + m < 0xffff {
        ModUnique(w + t - 1, 0xffff, q, w + m);
      } else {
        ModUnique(w + t - 1, 0xffff, q + 1, w + m - 0xffff);
      }
    }
  }

  lemma {:induction false} OnesSumIsNorm(b: seq<byte>)
    ensures OnesSum(b) == Norm(Total(b))
  {
    if |b| > 1 {
      OnesSumIsNorm(b[2..]);
      NormAdd(Word(b[0], b[1]), Total(b[2..]));
    }
  }

  /** Up to 131074 bytes cannot overflow the 32-bit accumulator. */
  lemma {:induction false} TotalBound(b: seq<byte>)
    ensures Total(b) <= 0xffff * ((|b| + 1) / 2)
  {
    if |b| > 1 { TotalBound(b[2..]); }
  }

  /** The two folds reduce any 32-bit sum to its one's complement value. */
  lemma TwoFolds(t: nat, t1: nat, t2: nat)
    requires t < 0x1_0000_0000 && t1 == t / 0x10000 + t % 0x10000 && t2 == t1 + t1 / 0x10000
    ensures t2 % 0x10000 == Norm(t)
  {
    var h, l := t / 0x10000, t % 0x10000;
    if 0 < t1 < 0x10000 {
      ModUnique(t - 1, 0xffff, h, t1 - 1);
    } else if t1 >= 0x10000 {
      ModUnique(t - 1, 0xffff, h + 1, t1 - 0x10000);
    }
  }

  /** `checksum`: the low half of the result is the complement of the one's complement sum. */
  method Checksum(data: seq<byte>) returns (r: nat)
    ensures r < 0x1_0000_0000
    ensures Total(data) < 0x1_0000_0000 ==> r % 0x10000 == 0xffff - OnesSum(data)
    ensures |data| <= 131074 ==> r % 0x10000 == 0xffff - OnesSum(data)
  {
    hide Total, OnesSum, Norm, Word32;
    var sum: nat, i, n := 0, 0, |data|;
    ghost var whole: nat := 0;
    assert data[0..] == data;
    Word32Small(0);
    while n > 1
      invariant 0 <= n <= |data| && i == |data| - n && sum == Word32(whole)
      invariant whole + Total(data[i..]) == Total(data)
    {
      TotalWord(data, i);
      WrapOnce(whole, Word(data[i], data[i + 1]));
      whole := whole + Word(data[i], data[i + 1]);
      sum := Word32(sum + Word(data[i], data[i + 1]));
      i := i + 2;
      n := n - 2;
    }
    TotalEnd(data, i);
    if n != 0 {
      WrapOnce(whole, data[i] as int);
      whole := whole + data[i] as int;
      sum := Word32(sum + data[i] as int);
    }
    ghost var t := sum;
    sum := sum / 0x10000 + sum % 0x10000;
    ghost var t1 := sum;
    sum := sum + sum / 0x10000;
    Finish(data, t, t1, sum);
    r := 0xffff_ffff - sum;
  }

  lemma TotalWord(data: seq<byte>, i: nat)
    requires i + 1 < |data|
    ensures Total(data[i..]) == Word(data[i], data[i + 1]) + Total(data[i + 2..])
  {
    assert data[i..][2..] == data[i + 2..];
  }

  lemma TotalEnd(data: seq<byte>, i: nat)
    requires |data| - 1 <= i <= |data|
    ensures Total(data[i..]) == if i < |data| then data[i] as int else 0
  {}

  lemma Finish(data: seq<byte>, t: nat, t1: nat, t2: nat)
    requires t == Word32(Total(data)) && t1 == t / 0x10000 + t % 0x10000 && t2 == t1 + t1 / 0x10000
    ensures t2 <= 0x1_ffff
    ensures Total(data) < 0x1_0000_0000 || |data| <= 131074 ==> (0xffff_ffff - t2) % 0x10000 == 0xffff - OnesSum(data)
  {
    OnesSumIsNorm(data);
    TotalBound(data);
    hide Total, OnesSum, Norm, Pow2;
    WordSize();
    if Total(data) < 0x1_0000_0000 { Word32Small(Total(data)); }
    TwoFolds(t, t1, t2);
    Complement(t2);
  }

  lemma Complement(sum: nat)
    requires sum <= 0x1_ffff
    ensures (0xffff_ffff - sum) % 0x10000 == 0xffff - sum % 0x10000
  {}

  /** A word stored at an even offset adds itself to the sum in place of the old one. */
  lemma {:induction false} TotalStored(b: seq<byte>, k: nat, low: byte, high: byte)
    requires k % 2 == 0 && k + 1 < |b|
    ensures Total(b[k := low][k + 1 := high]) == Total(b) - Word(b[k], b[k + 1]) + Word(low, high)
  {
    var b' := b[k := low][k + 1 := high];
    if k == 0 {
      assert b'[2..] == b[2..];
    } else {
      TotalStored(b[2..], k - 2, low, high);
      assert b'[2..] == b[2..][k - 2 := low][k - 1 := high];
    }
  }

  /** The sum that completes to 0xffff. */
  lemma NormComplete(t: nat, f: nat)
    requires f <= 0xffff
    ensures Norm(t) <= 0xffff
    ensures Norm(t + f) == 0xffff <==> f == 0xffff - Norm(t) || (f == 0xffff && Norm(t) == 0xffff)
  {
    NormAdd(f, t);
  }

  /**
    A packet whose checksum field, at even offset `k`, held zero: with the value `f` stored there
    the receiver's sum is 0xffff exactly when `f` is the complement of the sum without it, or
    both are all ones.
   */
  lemma ReceiverAccepts(b: seq<byte>, k: nat, low: byte, high: byte)
    requires k % 2 == 0 && k + 1 < |b| && b[k] == 0 && b[k + 1] == 0
    ensures OnesSum(b[k := low][k + 1 := high]) == 0xffff
      <==> Word(low, high) == 0xffff - OnesSum(b) || (Word(low, high) == 0xffff && OnesSum(b) == 0xffff)
  {
    TotalStored(b, k, low, high);
    OnesSumIsNorm(b);
    OnesSumIsNorm(b[k := low][k + 1 := high]);
    NormComplete(Total(b), Word(low, high));
  }

  /** Offset of the checksum in the ICMP header. */
  const FIELD: nat := 2

  /** The bytes of a half word in the order they are stored in. */
  method Halves(w: nat) returns (low: byte, high: byte)
    requires w <= 0xffff
    ensures Word(low, high) == w
  {
    low, high := w % 256, w / 256;
  }

  /**
    Computing the checksum over the ICMP part of a packet and storing it in the zeroed field:
    the receiver's sum over that part is 0xffff and no other byte changes.
   */
  method Seal(pkt: array<byte>, start: nat)
    requires start + FIELD + 1 < pkt.Length && pkt.Length - start <= 131074
    requires pkt[start + FIELD] == 0 && pkt[start + FIELD + 1] == 0
    modifies pkt
    ensures OnesSum(pkt[start..]) == 0xffff
    ensures forall i | 0 <= i < pkt.Length && i != start + 2 && i != start + 3 :: pkt[i] == old(pkt[i])
    ensures Word(pkt[start + 2], pkt[start + 3]) == 0xffff - OnesSum(old(pkt[start..]))
  {
    hide Total, OnesSum;
    ghost var b: seq<byte> := pkt[start..];
    var r := Checksum(pkt[start..]);
    var low, high := Halves(r % 0x10000);
    pkt[start + FIELD] := low;
    pkt[start + FIELD + 1] := high;
    assert pkt[start..] == b[FIELD := low][FIELD + 1 := high];
    ReceiverAccepts(b, FIELD, low, high);
  }

  /** The sum of the same bytes on a big-endian host. */
  ghost function TotalBig(b: seq<byte>): nat {
    if |b| == 0 then 0 else if |b| == 1 then Word(0, b[0]) else Word(b[1], b[0]) + TotalBig(b[2..])
  }

  function Swapped(x: nat): nat {
    x % 256 * 256 + x / 256
  }

  lemma {:induction false} BigIsShifted(b: seq<byte>)
    ensures TotalBig(b) % 0xffff == (256 * Total(b)) % 0xffff
    ensures TotalBig(b) == 0 <==> Total(b) == 0
  {
    if |b| > 1 {
      BigIsShifted(b[2..]);
      var low, high := b[0] as int, b[1] as int;
      SameResidue(0xffff, TotalBig(b[2..]), 256 * Total(b[2..]));
      assert Divides(0xffff, TotalBig(b) - 256 * Total(b)) by {
        assert TotalBig(b) - 256 * Total(b) == (TotalBig(b[2..]) - 256 * Total(b[2..])) * 1 + 0xffff * (-high);
        DividesCombination(0xffff, TotalBig(b[2..]) - 256 * Total(b[2..]), 0xffff, 1, -high);
      }
      SameResidue(0xffff, TotalBig(b), 256 * Total(b));
    }
  }

  /** Numbers of the same residue, both zero or neither, have the same one's complement value. */
  lemma NormOfResidue(t: nat, u: nat)
    requires t % 0xffff == u % 0xffff && (t == 0 <==> u == 0)
    ensures Norm(t) == Norm(u)
  {
    if t > 0 {
      SameResidue(0xffff, t, u);
      SameResidue(0xffff, t - 1, u - 1);
    }
  }

  /** Byte order does not matter (section 2(B) of RFC 1071): the other host's sum is this one swapped. */
  lemma ByteOrderIndependent(b: seq<byte>)
    ensures Norm(TotalBig(b)) == Swapped(Norm(Total(b)))
  {
    var t, n := Total(b), Norm(Total(b));
    BigIsShifted(b);
    SwapIsShift(n);
    NormSame(t);
    SameResidue(0xffff, n, t);
    SameResidue(0xffff, 256 * t, Swapped(n));
    assert Divides(0xffff, 256 * t - Swapped(n)) by {
      SameResidue(0xffff, Swapped(n), 256 * n);
      assert 256 * t - Swapped(n) == (n - t) * (-256) + (Swapped(n) - 256 * n) * (-1);
      DividesCombination(0xffff, n - t, Swapped(n) - 256 * n, -256, -1);
    }
    NormOfResidue(TotalBig(b), Swapped(n));
    NormSmall(Swapped(n));
  }

  lemma NormSame(t: nat)
    ensures Norm(t) % 0xffff == t % 0xffff && (Norm(t) == 0 <==> t == 0) && Norm(t) <= 0xffff
  {
    if t > 0 {
      var q, m := (t - 1) / 0xffff, (t - 1) % 0xffff;
      SameResidue(0xffff, t, m + 1);
      assert t - (m + 1) == 0xffff * q;
      DividesIff(0xffff, t - (m + 1), q);
    }
  }

  lemma NormSmall(x: nat)
    requires x <= 0xffff
    ensures Norm(x) == x
  {}

  lemma SwapIsShift(x: nat)
    requires x <= 0xffff
    ensures Swapped(x) % 0xffff == (256 * x) % 0xffff && Swapped(x) <= 0xffff && (Swapped(x) == 0 <==> x == 0)
  {
    var low, high := x % 256, x / 256;
    SameResidue(0xffff, 256 * x, Swapped(x));
    assert 256 * x - Swapped(x) == 0xffff * high;
    DividesIff(0xffff, 256 * x - Swapped(x), high);
  }
}
