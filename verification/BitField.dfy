/** Bit fields of a byte image: one bit-level specification of reading and writing a field. */
module BitField {
  import opened Types
  import opened Bits

  function FieldBits(image: Bytes, start: nat, len: nat): (r: seq<bool>)
    ensures |r| == len
    ensures forall i :: 0 <= i < len ==> r[i] == ImageBit(image, start + i)
  {
    seq(len, i requires 0 <= i < len => ImageBit(image, start + i))
  }

  /** The bytes of a field, low bit first, with zero bits as padding. */
  function ReadField(image: Bytes, start: nat, len: nat): Bytes {
    Pack(FieldBits(image, start, len))
  }

  function Overwritten(image: Bytes, start: nat, bits: seq<bool>): (r: seq<bool>)
    ensures |r| == 8 * |image|
    ensures forall n :: 0 <= n < |r| ==>
              r[n] == if start <= n < start + |bits| then bits[n - start] else ImageBit(image, n)
  {
    seq(8 * |image|, n requires 0 <= n < 8 * |image| =>
      if start <= n < start + |bits| then bits[n - start] else ImageBit(image, n))
  }

  /** The image with the field replaced by the given bits. */
  function WriteField(image: Bytes, start: nat, bits: seq<bool>): (r: Bytes)
    ensures |r| == |image|
  {
    Pack(Overwritten(image, start, bits))
  }

  /** A write touches exactly the bits of its field. */
  lemma WriteFieldBit(image: Bytes, start: nat, bits: seq<bool>, n: nat)
    requires n < 8 * |image|
    ensures ImageBit(WriteField(image, start, bits), n) ==
            if start <= n < start + |bits| then bits[n - start] else ImageBit(image, n)
  {
    PackBit(Overwritten(image, start, bits), n);
  }

  lemma ReadFieldBit(image: Bytes, start: nat, len: nat, i: nat)
    ensures ImageBit(ReadField(image, start, len), i) == (i < len && ImageBit(image, start + i))
  {
    PackBit(FieldBits(image, start, len), i);
  }

  /** The first `width` bits of a field, with zeros after its end. */
  function Extended(image: Bytes, start: nat, len: nat, width: nat): seq<bool> {
    seq(width, i requires 0 <= i < width => i < len && ImageBit(image, start + i))
  }

  lemma ReadExtended(image: Bytes, start: nat, len: nat, width: nat)
    ensures FieldBits(ReadField(image, start, len), 0, width) == Extended(image, start, len, width)
  {
    forall i: nat | i < width
      ensures FieldBits(ReadField(image, start, len), 0, width)[i] == Extended(image, start, len, width)[i]
    {
      ReadFieldBit(image, start, len, i);
    }
  }

  /** An image with the bits that a write prescribes is the written image. */
  lemma WriteFieldUnique(image: Bytes, start: nat, bits: seq<bool>, r: Bytes)
    requires |r| == |image|
    requires forall n: nat :: n < 8 * |image| ==>
               ImageBit(r, n) == if start <= n < start + |bits| then bits[n - start] else ImageBit(image, n)
    ensures r == WriteField(image, start, bits)
  {
    forall n: nat | n < 8 * |r| ensures ImageBit(r, n) == ImageBit(WriteField(image, start, bits), n) {
      WriteFieldBit(image, start, bits, n);
    }
    ImageBitsDetermine(r, WriteField(image, start, bits));
  }

  lemma ReadFieldUnique(image: Bytes, start: nat, len: nat, r: Bytes)
    requires |r| == DivCeil(len, 8)
    requires forall i: nat :: i < 8 * |r| ==> ImageBit(r, i) == (i < len && ImageBit(image, start + i))
    ensures r == ReadField(image, start, len)
  {
    forall i: nat | i < 8 * |r| ensures ImageBit(r, i) == ImageBit(ReadField(image, start, len), i) {
      ReadFieldBit(image, start, len, i);
    }
    ImageBitsDetermine(r, ReadField(image, start, len));
  }

  /** What was written is what the field then holds. */
  lemma ReadBack(image: Bytes, start: nat, bits: seq<bool>)
    requires start + |bits| <= 8 * |image|
    ensures FieldBits(WriteField(image, start, bits), start, |bits|) == bits
  {
    forall i | 0 <= i < |bits| ensures ImageBit(WriteField(image, start, bits), start + i) == bits[i] {
      WriteFieldBit(image, start, bits, start + i);
    }
  }

  predicate Disjoint(s1: nat, l1: nat, s2: nat, l2: nat) {
    s1 + l1 <= s2 || s2 + l2 <= s1
  }

  lemma SameBitsSameField(a: Bytes, b: Bytes, s: nat, l: nat)
    requires forall n: nat :: s <= n < s + l ==> ImageBit(a, n) == ImageBit(b, n)
    ensures FieldBits(a, s, l) == FieldBits(b, s, l)
  {
  }

  /** A write leaves every disjoint field alone. */
  lemma ReadElsewhere(image: Bytes, start: nat, bits: seq<bool>, s: nat, l: nat)
    requires s + l <= 8 * |image| && Disjoint(start, |bits|, s, l)
    ensures FieldBits(WriteField(image, start, bits), s, l) == FieldBits(image, s, l)
  {
    var w := WriteField(image, start, bits);
    SameBitsSameField(w, image, s, l) by {
      forall n: nat | s <= n < s + l ensures ImageBit(w, n) == ImageBit(image, n) {
        WriteFieldBit(image, start, bits, n);
      }
    }
  }

  /** Writes to disjoint fields commute. */
  lemma WritesCommute(image: Bytes, s1: nat, b1: seq<bool>, s2: nat, b2: seq<bool>)
    requires Disjoint(s1, |b1|, s2, |b2|)
    ensures WriteField(WriteField(image, s1, b1), s2, b2) == WriteField(WriteField(image, s2, b2), s1, b1)
  {
    var x, y := WriteField(image, s1, b1), WriteField(image, s2, b2);
    forall n: nat | n < 8 * |image|
      ensures ImageBit(WriteField(x, s2, b2), n) == ImageBit(WriteField(y, s1, b1), n)
    {
      WriteFieldBit(image, s1, b1, n);
      WriteFieldBit(image, s2, b2, n);
      WriteFieldBit(x, s2, b2, n);
      WriteFieldBit(y, s1, b1, n);
    }
    ImageBitsDetermine(WriteField(x, s2, b2), WriteField(y, s1, b1));
  }

  /** Copying whole bytes reads the same field as going bit by bit. */
  lemma ByteCopyReads(image: Bytes, offset: nat, count: nat)
    requires offset + count <= |image|
    ensures image[offset..offset + count] == ReadField(image, 8 * offset, 8 * count)
  {
    var r := image[offset..offset + count];
    forall i: nat | i < 8 * |r| ensures ImageBit(r, i) == ImageBit(image, 8 * offset + i) {
      assert (8 * offset + i) / 8 == offset + i / 8 && (8 * offset + i) % 8 == i % 8;
    }
    ReadFieldUnique(image, 8 * offset, 8 * count, r);
  }

  /** Copying whole bytes writes the same field as going bit by bit. */
  lemma ByteCopyWrites(image: Bytes, offset: nat, data: Bytes)
    requires offset + |data| <= |image|
    ensures image[..offset] + data + image[offset + |data|..] ==
            WriteField(image, 8 * offset, Unpack(data))
  {
    var r := image[..offset] + data + image[offset + |data|..];
    forall n: nat | n < 8 * |image|
      ensures ImageBit(r, n) ==
              if 8 * offset <= n < 8 * offset + 8 * |data| then Unpack(data)[n - 8 * offset] else ImageBit(image, n)
    {
      if 8 * offset <= n < 8 * offset + 8 * |data| {
        assert (n - 8 * offset) / 8 == n / 8 - offset && (n - 8 * offset) % 8 == n % 8;
        assert r[n / 8] == data[n / 8 - offset];
      } else {
        assert r[n / 8] == image[n / 8];
      }
    }
    WriteFieldUnique(image, 8 * offset, Unpack(data), r);
  }

  /** `b & (1 << k)` tests bit `k`. */
  lemma {:induction false} AndMask(b: nat, k: nat)
    ensures And(b, Pow2(k)) == (if Bit(b, k) then Pow2(k) else 0)
    decreases k
  {
    if k == 0 {
      AndZero(b / 2);
    } else {
      AndMask(b / 2, k - 1);
    }
  }

  lemma {:induction false} AndZero(b: nat)
    ensures And(b, 0) == 0
  {
    if b != 0 { AndZero(b / 2); }
  }

  lemma MaskIsByte(k: nat)
    requires k < 8
    ensures Pow2(k) <= 128
  {
    ByteWidth();
    Pow2Monotone(k, 8);
  }

  /** `b |= 1 << k` when `v`, `b &= !(1 << k)` otherwise. */
  function PutBit(b: byte, k: nat, v: bool): byte
    requires k < 8
  {
    ByteWidth();
    MaskIsByte(k);
    OpBound(b, Pow2(k), 8);
    OpBound(b, 255 - Pow2(k), 8);
    if v then Or(b, Pow2(k)) else And(b, 255 - Pow2(k))
  }

  lemma PutBitBit(b: byte, k: nat, v: bool, j: nat)
    requires k < 8 && j < 8
    ensures Bit(PutBit(b, k, v), j) == if j == k then v else Bit(b, j)
  {
    ByteWidth();
    MaskIsByte(k);
    Pow2Bit(k, j);
    if v {
      OrBit(b, Pow2(k), j);
    } else {
      AndBit(b, 255 - Pow2(k), j);
      ComplementBit(Pow2(k), 8, j);
    }
  }

  /** Putting one bit of one byte changes exactly that bit of the image. */
  lemma PutImageBit(image: Bytes, n: nat, v: bool, m: nat)
    requires n < 8 * |image| && m < 8 * |image|
    ensures ImageBit(image[n / 8 := PutBit(image[n / 8], n % 8, v)], m) == if m == n then v else ImageBit(image, m)
  {
    if m / 8 == n / 8 { PutBitBit(image[n / 8], n % 8, v, m % 8); }
  }
}
