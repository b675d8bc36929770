/**
  Octets, bit positions and the two readings of a bit string used throughout: bits of an octet
  buffer counted from its most significant bit, and bits of a number counted from its least
  significant one.
 */
module Bits {

  type byte = bv8

  /** The octet with only bit k set, bit 0 being the most significant. */
  function Mask(k: nat): byte
    requires k < 8
  {
    (1 as bv8) << (7 - k)
  }

  predicate Bit(b: byte, k: nat)
    requires k < 8
  {
    b & Mask(k) != 0
  }

  /** Bit p of a buffer; bit 0 is the most significant bit of the first octet. */
  predicate BitAt(buffer: seq<byte>, p: nat)
    requires p < 8 * |buffer|
  {
    Bit(buffer[p / 8], p % 8)
  }

  lemma MaskTable()
    ensures Mask(0) == 0x80 && Mask(1) == 0x40 && Mask(2) == 0x20 && Mask(3) == 0x10
    ensures Mask(4) == 0x08 && Mask(5) == 0x04 && Mask(6) == 0x02 && Mask(7) == 0x01
  {
  }

  lemma OrMask(b: byte, k: nat, j: nat)
    requires k < 8 && j < 8
    ensures Bit(b | Mask(k), j) == (Bit(b, j) || j == k)
  {
    MaskTable();
  }

  lemma ZeroBit(k: nat)
    requires k < 8
    ensures !Bit(0, k)
  {
    MaskTable();
  }

  lemma SameBitsSameByte(a: byte, b: byte)
    requires forall k: nat :: k < 8 ==> Bit(a, k) == Bit(b, k)
    ensures a == b
  {
    MaskTable();
    assert Bit(a, 0) == Bit(b, 0) && Bit(a, 1) == Bit(b, 1) && Bit(a, 2) == Bit(b, 2) && Bit(a, 3) == Bit(b, 3);
    assert Bit(a, 4) == Bit(b, 4) && Bit(a, 5) == Bit(b, 5) && Bit(a, 6) == Bit(b, 6) && Bit(a, 7) == Bit(b, 7);
  }

  /** A buffer is determined by its bits. */
  lemma SameBitsSameBuffer(a: seq<byte>, b: seq<byte>)
    requires |a| == |b|
    requires forall p: nat :: p < 8 * |a| ==> BitAt(a, p) == BitAt(b, p)
    ensures a == b
  {
    forall i | 0 <= i < |a|
      ensures a[i] == b[i]
    {
      forall k: nat | k < 8
        ensures Bit(a[i], k) == Bit(b[i], k)
      {
        assert BitAt(a, 8 * i + k) == BitAt(b, 8 * i + k);
      }
      SameBitsSameByte(a[i], b[i]);
    }
  }

  /** Setting bit q of a buffer changes no other bit. */
  lemma SetBitInBuffer(buffer: seq<byte>, q: nat, p: nat)
    requires q < 8 * |buffer| && p < 8 * |buffer|
    ensures var after := buffer[q / 8 := buffer[q / 8] | Mask(q % 8)];
            BitAt(after, p) == (BitAt(buffer, p) || p == q)
  {
    OrMask(buffer[q / 8], q % 8, p % 8);
  }

  // ---- Numbers and bit strings, least significant bit first ----

  function Pow2(n: nat): (r: nat)
    ensures r >= 1
  {
    if n == 0 then 1 else 2 * Pow2(n - 1)
  }

  lemma {:induction false} Pow2Add(m: nat, n: nat)
    ensures Pow2(m + n) == Pow2(m) * Pow2(n)
  {
    if m != 0 {
      Pow2Add(m - 1, n);
      assert Pow2(m + n) == 2 * (Pow2(m - 1) * Pow2(n));
    }
  }

  lemma {:induction false} Pow2Monotone(m: nat, n: nat)
    requires m <= n
    ensures Pow2(m) <= Pow2(n)
    decreases n
  {
    if m < n {
      Pow2Monotone(m, n - 1);
    }
  }

  function NatOfBits(bits: seq<bool>): (n: nat)
    ensures n < Pow2(|bits|)
  {
    if bits == [] then 0 else (if bits[0] then 1 else 0) + 2 * NatOfBits(bits[1..])
  }

  function BitsOfNat(n: nat, w: nat): (bits: seq<bool>)
    ensures |bits| == w
  {
    if w == 0 then [] else [n % 2 == 1] + BitsOfNat(n / 2, w - 1)
  }

  lemma {:induction false} BitsOfNatOfBits(bits: seq<bool>)
    ensures BitsOfNat(NatOfBits(bits), |bits|) == bits
  {
    if bits != [] {
      BitsOfNatOfBits(bits[1..]);
      var rest := NatOfBits(bits[1..]);
      assert NatOfBits(bits) % 2 == (if bits[0] then 1 else 0) && NatOfBits(bits) / 2 == rest;
    }
  }

  lemma HalfMod(n: nat, k: nat)
    requires k >= 1
    ensures n % (2 * k) == n % 2 + 2 * (n / 2 % k)
  {
    var h := n / 2;
    var q, r := h / k, h % k;
    assert h == k * q + r;
    var low := n % 2 + 2 * r;
    assert n == 2 * h + n % 2;
    assert 2 * (k * q) == (2 * k) * q;
    assert n == (2 * k) * q + low && 0 <= low < 2 * k;
    ModUnique(n, 2 * k, q, low);
  }

  lemma MulBounds(d: int, k: int)
    requires d >= 0
    ensures k >= 1 ==> d * k >= d
    ensures k <= -1 ==> d * k <= 0 - d
  {
  }

  lemma ModUnique(n: int, d: int, q: int, r: int)
    requires 0 < d && 0 <= r < d && n == d * q + r
    ensures n / d == q && n % d == r
  {
    var q2 := n / d;
    var r2 := n - d * q2;
    assert 0 <= r2 < d;
    var gap := q2 - q;
    assert d * gap == r - r2 by {
      assert d * gap == d * q2 - d * q;
    }
    MulBounds(d, gap);
  }

  /** Reducing modulo a multiple first changes no residue. */
  lemma ModOfProduct(i: int, a: nat, b: nat)
    requires a > 0 && b > 0
    ensures a * b > 0 && i % (a * b) % a == i % a
  {
    MulBounds(a, b);
    var n := a * b;
    var q, u := i / n, i % n;
    var q2, r := u / a, u % a;
    assert i == n * q + u && u == a * q2 + r;
    assert n * q == a * (b * q);
    assert i == a * (b * q + q2) + r;
    ModUnique(i, a, b * q + q2, r);
  }

  lemma {:induction false} NatOfBitsOfNat(n: nat, w: nat)
    ensures NatOfBits(BitsOfNat(n, w)) == n % Pow2(w)
  {
    if w != 0 {
      NatOfBitsOfNat(n / 2, w - 1);
      assert BitsOfNat(n, w)[1..] == BitsOfNat(n / 2, w - 1);
      HalfMod(n, Pow2(w - 1));
    }
  }

  lemma {:induction false} BitsOfNatPrefix(n: nat, v: nat, w: nat)
    requires v <= w
    ensures BitsOfNat(n, w)[..v] == BitsOfNat(n, v)
  {
    if v != 0 {
      BitsOfNatPrefix(n / 2, v - 1, w - 1);
      assert BitsOfNat(n, w)[..v] == [n % 2 == 1] + BitsOfNat(n / 2, w - 1)[..v - 1];
    }
  }

  /** Bits above the width of a small number are clear. */
  lemma {:induction false} BitsOfSmallNat(n: nat, v: nat, w: nat)
    requires v <= w && n < Pow2(v)
    ensures forall i :: v <= i < w ==> !BitsOfNat(n, w)[i]
  {
    if w != 0 {
      if v == 0 {
        BitsOfSmallNat(n / 2, 0, w - 1);
      } else {
        BitsOfSmallNat(n / 2, v - 1, w - 1);
      }
      var rest := BitsOfNat(n / 2, w - 1);
      forall i | v <= i < w
        ensures !BitsOfNat(n, w)[i]
      {
        if i > 0 {
          assert BitsOfNat(n, w)[i] == rest[i - 1];
        }
      }
    }
  }

  // ---- One octet as eight bits, least significant first ----

  function ByteOfBits(bits: seq<bool>): byte
    requires |bits| == 8
  {
    (if bits[7] then 0x80 else 0) | (if bits[6] then 0x40 else 0) | (if bits[5] then 0x20 else 0) |
    (if bits[4] then 0x10 else 0) | (if bits[3] then 0x08 else 0) | (if bits[2] then 0x04 else 0) |
    (if bits[1] then 0x02 else 0) | (if bits[0] then 0x01 else 0)
  }

  function BitsOfByte(b: byte): (bits: seq<bool>)
    ensures |bits| == 8
  {
    [b & 0x01 != 0, b & 0x02 != 0, b & 0x04 != 0, b & 0x08 != 0,
     b & 0x10 != 0, b & 0x20 != 0, b & 0x40 != 0, b & 0x80 != 0]
  }

  lemma ByteOfBitsOfByte(b: byte)
    ensures ByteOfBits(BitsOfByte(b)) == b
  {
  }

  lemma BitsOfByteOfBits(bits: seq<bool>)
    requires |bits| == 8
    ensures BitsOfByte(ByteOfBits(bits)) == bits
  {
    var b := ByteOfBits(bits);
    assert BitsOfByte(b)[0] == bits[0] && BitsOfByte(b)[1] == bits[1];
    assert BitsOfByte(b)[2] == bits[2] && BitsOfByte(b)[3] == bits[3];
    assert BitsOfByte(b)[4] == bits[4] && BitsOfByte(b)[5] == bits[5];
    assert BitsOfByte(b)[6] == bits[6] && BitsOfByte(b)[7] == bits[7];
  }

  function NatOfByte(b: byte): (n: nat)
    ensures n < 256
  {
    assert Pow2(8) == 256;
    NatOfBits(BitsOfByte(b))
  }

  function ByteOfNat(n: nat): byte
    requires n < 256
  {
    ByteOfBits(BitsOfNat(n, 8))
  }

  lemma EightBits(bits: seq<bool>)
    requires |bits| == 8
    ensures NatOfBits(bits) == Weight(bits[0], 1) + Weight(bits[1], 2) + Weight(bits[2], 4) + Weight(bits[3], 8)
                               + Weight(bits[4], 16) + Weight(bits[5], 32) + Weight(bits[6], 64) + Weight(bits[7], 128)
  {
    hide NatOfBits;
    NoBits(bits[8..]);
    FourBits(bits, 4);
    FourBits(bits, 0);
    assert bits[0..] == bits;
    WeightScaled(bits[4], 1, 16);
    WeightScaled(bits[5], 2, 16);
    WeightScaled(bits[6], 4, 16);
    WeightScaled(bits[7], 8, 16);
    hide Weight;
  }

  lemma NoBits(bits: seq<bool>)
    requires bits == []
    ensures NatOfBits(bits) == 0
  {
  }

  lemma WeightScaled(b: bool, weight: nat, factor: nat)
    ensures factor * weight >= 0 && Weight(b, factor * weight) == factor * Weight(b, weight)
  {
  }

  lemma FourBits(bits: seq<bool>, k: nat)
    requires k + 4 <= |bits|
    ensures NatOfBits(bits[k..]) == Weight(bits[k], 1) + Weight(bits[k + 1], 2) + Weight(bits[k + 2], 4)
                                    + Weight(bits[k + 3], 8) + 16 * NatOfBits(bits[k + 4..])
  {
    hide NatOfBits;
    NatStep(bits, k);
    NatStep(bits, k + 1);
    NatStep(bits, k + 2);
    NatStep(bits, k + 3);
  }

  lemma NatStep(bits: seq<bool>, k: nat)
    requires k < |bits|
    ensures NatOfBits(bits[k..]) == Weight(bits[k], 1) + 2 * NatOfBits(bits[k + 1..])
  {
    assert bits[k..][1..] == bits[k + 1..];
  }

  function Weight(b: bool, weight: nat): nat
  {
    if b then weight else 0
  }

  /** An octet's number is the sum of the weights of its bits. */
  lemma ByteWeights(b: byte)
    ensures NatOfByte(b) == Weight(b & 0x01 != 0, 1) + Weight(b & 0x02 != 0, 2)
                            + Weight(b & 0x04 != 0, 4) + Weight(b & 0x08 != 0, 8)
                            + Weight(b & 0x10 != 0, 16) + Weight(b & 0x20 != 0, 32)
                            + Weight(b & 0x40 != 0, 64) + Weight(b & 0x80 != 0, 128)
  {
    EightBits(BitsOfByte(b));
  }

  lemma ByteOfNatOfByte(b: byte)
    ensures ByteOfNat(NatOfByte(b)) == b
  {
    BitsOfNatOfBits(BitsOfByte(b));
    ByteOfBitsOfByte(b);
  }

  lemma NatOfByteOfNat(n: nat)
    requires n < 256
    ensures NatOfByte(ByteOfNat(n)) == n
  {
    BitsOfByteOfBits(BitsOfNat(n, 8));
    NatOfBitsOfNat(n, 8);
    assert Pow2(8) == 256;
    ModUnique(n, 256, 0, n);
  }

  lemma {:induction false} NatOfConcat(low: seq<bool>, high: seq<bool>)
    ensures NatOfBits(low + high) == NatOfBits(low) + Pow2(|low|) * NatOfBits(high)
  {
    if low == [] {
      assert low + high == high;
    } else {
      NatOfConcat(low[1..], high);
      assert (low + high)[1..] == low[1..] + high;
      MulTwice(Pow2(|low| - 1), NatOfBits(high));
    }
  }

  lemma MulTwice(a: nat, b: nat)
    ensures 2 * a * b == 2 * (a * b)
  {
  }

  // ---- Exclusive or over a buffer ----

  function XorFold(data: seq<byte>): byte
  {
    if data == [] then 0 else XorFold(data[..|data| - 1]) ^ data[|data| - 1]
  }

  /** Replacing one octet changes the fold by exactly the difference of the two octets. */
  lemma {:induction false} XorFoldUpdate(data: seq<byte>, i: nat, b: byte)
    requires i < |data|
    ensures XorFold(data[i := b]) == XorFold(data) ^ data[i] ^ b
  {
    var last := |data| - 1;
    if i == last {
      assert data[i := b][..last] == data[..last];
    } else {
      XorFoldUpdate(data[..last], i, b);
      assert data[i := b][..last] == data[..last][i := b];
    }
  }
}
