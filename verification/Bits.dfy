/**
 Bitwise operators on naturals, least significant bit first, and the view of a byte
 sequence as a sequence of bits.
 */
module Bits {
  import opened Types

  function Pow2(k: nat): (r: nat)
    ensures r >= 1
  {
    if k == 0 then 1 else 2 * Pow2(k - 1)
  }

  /** Bit `k` of `n`. */
  predicate Bit(n: nat, k: nat) {
    if k == 0 then n % 2 == 1 else Bit(n / 2, k - 1)
  }

  function OfBool(b: bool): nat {
    if b then 1 else 0
  }

  /** `a | b` */
  function Or(a: nat, b: nat): nat
    decreases a + b
  {
    if a == 0 && b == 0 then 0 else OfBool(a % 2 == 1 || b % 2 == 1) + 2 * Or(a / 2, b / 2)
  }

  /** `a & b` */
  function And(a: nat, b: nat): nat
    decreases a + b
  {
    if a == 0 && b == 0 then 0 else OfBool(a % 2 == 1 && b % 2 == 1) + 2 * And(a / 2, b / 2)
  }

  /** `a ^ b` */
  function Xor(a: nat, b: nat): nat
    decreases a + b
  {
    if a == 0 && b == 0 then 0 else OfBool((a % 2 == 1) != (b % 2 == 1)) + 2 * Xor(a / 2, b / 2)
  }

  /** Taking a number apart into its lowest bit and the rest. */
  lemma Halve(low: bool, rest: nat)
    ensures (OfBool(low) + 2 * rest) / 2 == rest
    ensures ((OfBool(low) + 2 * rest) % 2 == 1) == low
  {
  }

  lemma HalveComplement(half: nat, n: nat)
    requires n < 2 * half
    ensures (2 * half - 1 - n) / 2 == half - 1 - n / 2
    ensures ((2 * half - 1 - n) % 2 == 1) == (n % 2 == 0)
  {
  }

  lemma {:induction false} ZeroBit(k: nat)
    ensures !Bit(0, k)
  {
    if k > 0 { ZeroBit(k - 1); }
  }

  lemma {:induction false} OrBit(a: nat, b: nat, k: nat)
    ensures Bit(Or(a, b), k) == (Bit(a, k) || Bit(b, k))
    decreases k
  {
    if a == 0 && b == 0 {
      ZeroBit(k);
    } else {
      Halve(a % 2 == 1 || b % 2 == 1, Or(a / 2, b / 2));
      if k > 0 { OrBit(a / 2, b / 2, k - 1); }
    }
  }

  lemma {:induction false} AndBit(a: nat, b: nat, k: nat)
    ensures Bit(And(a, b), k) == (Bit(a, k) && Bit(b, k))
    decreases k
  {
    if a == 0 && b == 0 {
      ZeroBit(k);
    } else {
      Halve(a % 2 == 1 && b % 2 == 1, And(a / 2, b / 2));
      if k > 0 { AndBit(a / 2, b / 2, k - 1); }
    }
  }

  /** Bounds: the operators stay within the width of their operands. */
  lemma {:induction false} OpBound(a: nat, b: nat, w: nat)
    requires a < Pow2(w) && b < Pow2(w)
    ensures Or(a, b) < Pow2(w) && And(a, b) < Pow2(w) && Xor(a, b) < Pow2(w)
  {
    if w > 0 { OpBound(a / 2, b / 2, w - 1); }
  }

  lemma {:induction false} XorZero(a: nat, b: nat)
    ensures Xor(a, b) == 0 <==> a == b
    decreases a + b
  {
    if a != 0 || b != 0 { XorZero(a / 2, b / 2); }
  }

  lemma {:induction false} OrZero(a: nat, b: nat)
    ensures Or(a, b) == 0 <==> a == 0 && b == 0
    decreases a + b
  {
    if a != 0 || b != 0 { OrZero(a / 2, b / 2); }
  }

  /** `1 << k` has exactly bit `k` set. */
  lemma {:induction false} Pow2Bit(k: nat, j: nat)
    ensures Bit(Pow2(k), j) == (j == k)
    decreases k
  {
    if k == 0 {
      if j > 0 { ZeroBit(j - 1); }
    } else if j > 0 {
      Pow2Bit(k - 1, j - 1);
    }
  }

  /** The complement `2^w - 1 - n` flips every bit below the width. */
  lemma {:induction false} ComplementBit(n: nat, w: nat, k: nat)
    requires n < Pow2(w) && k < w
    ensures Bit(Pow2(w) - 1 - n, k) == !Bit(n, k)
    decreases w
  {
    HalveComplement(Pow2(w - 1), n);
    if k > 0 { ComplementBit(n / 2, w - 1, k - 1); }
  }

  lemma {:induction false} Pow2Monotone(k: nat, w: nat)
    requires k < w
    ensures 2 * Pow2(k) <= Pow2(w)
    decreases w
  {
    if k < w - 1 { Pow2Monotone(k, w - 1); }
  }

  lemma ByteWidth()
    ensures Pow2(8) == 256
  {
    assert Pow2(4) == 16;
  }

  /** A number below `2^w` is determined by its low `w` bits. */
  lemma {:induction false} BitsDetermine(a: nat, b: nat, w: nat)
    requires a < Pow2(w) && b < Pow2(w)
    requires forall k: nat :: k < w ==> Bit(a, k) == Bit(b, k)
    ensures a == b
    decreases w
  {
    if w > 0 {
      assert Bit(a, 0) == Bit(b, 0);
      forall k: nat | k < w - 1 ensures Bit(a / 2, k) == Bit(b / 2, k) {
        assert Bit(a, k + 1) == Bit(b, k + 1);
      }
      BitsDetermine(a / 2, b / 2, w - 1);
    }
  }

  function FromBits(bits: seq<bool>): nat {
    if bits == [] then 0 else OfBool(bits[0]) + 2 * FromBits(bits[1..])
  }

  lemma {:induction false} FromBitsBit(bits: seq<bool>, k: nat)
    ensures Bit(FromBits(bits), k) == (k < |bits| && bits[k])
  {
    if bits == [] {
      ZeroBit(k);
    } else {
      Halve(bits[0], FromBits(bits[1..]));
      if k > 0 { FromBitsBit(bits[1..], k - 1); }
    }
  }

  lemma {:induction false} FromBitsBound(bits: seq<bool>)
    ensures FromBits(bits) < Pow2(|bits|)
  {
    if bits != [] { FromBitsBound(bits[1..]); }
  }

  /** Bit `n` of a byte sequence; bit 0 is the least significant bit of byte 0. */
  predicate ImageBit(image: Bytes, n: nat) {
    n < 8 * |image| && Bit(image[n / 8], n % 8)
  }

  /** Two byte sequences of one length with the same bits are the same bytes. */
  lemma ImageBitsDetermine(a: Bytes, b: Bytes)
    requires |a| == |b|
    requires forall n: nat :: n < 8 * |a| ==> ImageBit(a, n) == ImageBit(b, n)
    ensures a == b
  {
    forall j | 0 <= j < |a| ensures a[j] == b[j] {
      forall k: nat | k < 8 ensures Bit(a[j], k) == Bit(b[j], k) {
        assert ImageBit(a, 8 * j + k) == ImageBit(b, 8 * j + k);
        assert (8 * j + k) / 8 == j && (8 * j + k) % 8 == k;
      }
      ByteWidth();
      BitsDetermine(a[j], b[j], 8);
    }
  }

  function PackByte(bits: seq<bool>): byte
    requires |bits| <= 8
  {
    FromBitsBound(bits);
    ByteWidth();
    if |bits| < 8 then Pow2Monotone(|bits|, 8); FromBits(bits) else FromBits(bits)
  }

  /** Packs bits into bytes, padding the last byte with zero bits. */
  function Pack(bits: seq<bool>): (r: Bytes)
    ensures |r| == DivCeil(|bits|, 8)
  {
    seq(DivCeil(|bits|, 8), j requires 0 <= j < DivCeil(|bits|, 8) =>
      PackByte(bits[8 * j..Min(8 * j + 8, |bits|)]))
  }

  lemma PackBit(bits: seq<bool>, n: nat)
    ensures ImageBit(Pack(bits), n) == (n < |bits| && bits[n])
  {
    var r := Pack(bits);
    if n < 8 * |r| {
      var j := n / 8;
      var chunk := bits[8 * j..Min(8 * j + 8, |bits|)];
      assert r[j] == PackByte(chunk);
      FromBitsBit(chunk, n % 8);
    }
  }

  /** The bits of whole bytes, low bit first. */
  function Unpack(image: Bytes): (r: seq<bool>)
    ensures |r| == 8 * |image|
    ensures forall n :: 0 <= n < |r| ==> r[n] == ImageBit(image, n)
  {
    seq(8 * |image|, n requires 0 <= n < 8 * |image| => ImageBit(image, n))
  }
}
