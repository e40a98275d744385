/**
 The process images: the slave's, which addresses single bits, and the master's, which
 copies whole bytes and ignores the bit offset.
 */
module ProcessImage {
  import opened Types
  import opened Bits
  import opened BitField

  datatype ImageKind = BitGranular | ByteGranular

  /** First bit of the field that a position addresses. */
  function FieldStart(kind: ImageKind, p: Position): nat {
    8 * p.byteOffset + if kind.BitGranular? then p.bitOffset else 0
  }

  /** Number of bits that a read or write of the position covers. */
  function FieldLen(kind: ImageKind, p: Position): nat {
    if kind.BitGranular? then p.bitLen else 8 * BitLenToByteLen(p.bitLen)
  }

  /** The field lies inside an image of `size` bytes; the slave also wants its first byte inside. */
  predicate FieldFits(kind: ImageKind, size: nat, p: Position) {
    && FieldStart(kind, p) + FieldLen(kind, p) <= 8 * size
    && (kind.BitGranular? ==> p.byteOffset < size)
  }

  function ReadOutputs(kind: ImageKind, image: Bytes, p: Position): Result<Bytes> {
    if FieldFits(kind, |image|, p) then Ok(ReadField(image, FieldStart(kind, p), FieldLen(kind, p)))
    else Err(ErrInvalidLen)
  }

  /** The input image after a write, or the refusal. */
  function WriteInputs(kind: ImageKind, image: Bytes, data: Bytes, p: Position): Result<Bytes> {
    if FieldFits(kind, |image|, p) && |data| == BitLenToByteLen(p.bitLen) then
      Ok(WriteField(image, FieldStart(kind, p), Unpack(data)[..FieldLen(kind, p)]))
    else Err(ErrInvalidLen)
  }

  /** Largest image for which no 32-bit bit index can overflow. */
  const MAX_IMAGE_SIZE := 0x2000_0000

  /**
   The bounds check of the slave: with a saturating sum of offset and length it passes
   exactly when the field fits, and then the sum did not saturate.
   */
  lemma BoundsCheck(size: nat, p: Position)
    requires size < MAX_IMAGE_SIZE
    ensures var span := BitLenToByteLen(SaturatingAdd32(p.bitOffset, p.bitLen));
            !(p.byteOffset >= size || p.byteOffset + span > size) <==> FieldFits(BitGranular, size, p)
    ensures FieldFits(BitGranular, size, p) ==> p.bitOffset + p.bitLen <= U32_MAX
  {
  }

  lemma SameBitIndex(byteOffset: nat, bit: nat)
    ensures (8 * byteOffset + bit) / 8 == byteOffset + bit / 8
    ensures (8 * byteOffset + bit) % 8 == bit % 8
  {
  }

  /** The first `i` bits of `data` stand in the image from `start` on, and every other bit is as it was. */
  ghost predicate Written(was: Bytes, image: Bytes, data: Bytes, start: nat, i: nat) {
    && |image| == |was|
    && forall n: nat :: n < 8 * |image| ==>
         ImageBit(image, n) == if start <= n < start + i then ImageBit(data, n - start) else ImageBit(was, n)
  }

  /** One round of the bit loop. */
  lemma PutsOneBit(was: Bytes, before: Bytes, after: Bytes, data: Bytes, start: nat, i: nat, v: bool)
    requires Written(was, before, data, start, i) && start + i < 8 * |before| && v == ImageBit(data, i)
    requires after == before[(start + i) / 8 := PutBit(before[(start + i) / 8], (start + i) % 8, v)]
    ensures Written(was, after, data, start, i + 1)
  {
    forall m: nat | m < 8 * |after|
      ensures ImageBit(after, m) == if m == start + i then v else ImageBit(before, m)
    {
      PutImageBit(before, start + i, v, m);
    }
  }

  class ProcessImage {
    const kind: ImageKind
    const inputImage: array<byte>
    const outputImage: array<byte>

    ghost predicate Valid() {
      && inputImage != outputImage
      && inputImage.Length < MAX_IMAGE_SIZE
      && outputImage.Length < MAX_IMAGE_SIZE
    }

    constructor (kind: ImageKind, inputs: nat, outputs: nat)
      requires inputs < MAX_IMAGE_SIZE && outputs < MAX_IMAGE_SIZE
      ensures Valid() && this.kind == kind
      ensures fresh(inputImage) && fresh(outputImage)
      ensures inputImage[..] == seq(inputs, _ => 0) && outputImage[..] == seq(outputs, _ => 0)
    {
      this.kind := kind;
      this.inputImage := new byte[inputs](_ => 0);
      this.outputImage := new byte[outputs](_ => 0);
    }

    method Read(p: Position) returns (r: Result<Bytes>)
      requires Valid()
      ensures r == ReadOutputs(kind, outputImage[..], p)
    {
      if kind.BitGranular? {
        r := ReadBits(p);
      } else {
        var byteLen := BitLenToByteLen(p.bitLen);
        if p.byteOffset + byteLen > outputImage.Length {
          return Err(ErrInvalidLen);
        }
        ByteCopyReads(outputImage[..], p.byteOffset, byteLen);
        r := Ok(outputImage[p.byteOffset..p.byteOffset + byteLen]);
      }
    }

    /** The slave's read: a byte copy for aligned fields, a bit loop otherwise. */
    method ReadBits(p: Position) returns (r: Result<Bytes>)
      requires Valid() && kind.BitGranular?
      ensures r == ReadOutputs(kind, outputImage[..], p)
    {
      ghost var image := outputImage[..];
      var spanBits := SaturatingAdd32(p.bitOffset, p.bitLen);
      var offset := p.byteOffset;
      var end := offset + BitLenToByteLen(spanBits);
      BoundsCheck(outputImage.Length, p);
      if offset >= outputImage.Length || end > outputImage.Length {
        return Err(ErrInvalidLen);
      }
      if p.bitOffset == 0 && p.bitLen % 8 == 0 {
        ByteCopyReads(image, offset, end - offset);
        return Ok(outputImage[offset..end]);
      }
      var out := GatherBits(p);
      r := Ok(out);
    }

    method GatherBits(p: Position) returns (out: Bytes)
      requires Valid() && kind.BitGranular? && FieldFits(kind, outputImage.Length, p)
      ensures out == ReadField(outputImage[..], FieldStart(kind, p), p.bitLen)
    {
      BoundsCheck(outputImage.Length, p);
      ghost var image := outputImage[..];
      ghost var start := FieldStart(kind, p);
      out := seq(BitLenToByteLen(p.bitLen), _ => 0);
      forall n: nat | n < 8 * |out| ensures !ImageBit(out, n) { ZeroBit(n % 8); }
      for i := 0 to p.bitLen
        invariant |out| == BitLenToByteLen(p.bitLen)
        invariant forall n: nat :: n < 8 * |out| ==> ImageBit(out, n) == (n < i && ImageBit(image, start + n))
      {
        var srcBit: u32 := p.bitOffset + i;
        SameBitIndex(p.byteOffset, srcBit);
        AndMask(outputImage[p.byteOffset + srcBit / 8], srcBit % 8);
        var bitSet := And(outputImage[p.byteOffset + srcBit / 8], Pow2(srcBit % 8)) != 0;
        assert bitSet == ImageBit(image, start + i);
        ghost var before := out;
        if bitSet {
          out := out[i / 8 := PutBit(out[i / 8], i % 8, true)];
        }
        forall n: nat | n < 8 * |out|
          ensures ImageBit(out, n) == (n < i + 1 && ImageBit(image, start + n))
        {
          assert ImageBit(before, n) == (n < i && ImageBit(image, start + n));
          if bitSet { PutImageBit(before, i, true, n); }
        }
      }
      ReadFieldUnique(image, start, p.bitLen, out);
    }

    method Write(data: Bytes, p: Position) returns (r: Result<()>)
      requires Valid()
      modifies inputImage
      ensures r.Ok? <==> WriteInputs(kind, old(inputImage[..]), data, p).Ok?
      ensures r.Ok? ==> Ok(inputImage[..]) == WriteInputs(kind, old(inputImage[..]), data, p)
      ensures r.Err? ==> r.code == ErrInvalidLen && inputImage[..] == old(inputImage[..])
    {
      if kind.BitGranular? {
        r := WriteBits(data, p);
      } else {
        var byteLen := BitLenToByteLen(p.bitLen);
        if |data| != byteLen {
          return Err(ErrInvalidLen);
        }
        if p.byteOffset + byteLen > inputImage.Length {
          return Err(ErrInvalidLen);
        }
        CopyBytes(p.byteOffset, data);
        assert Unpack(data)[..8 * byteLen] == Unpack(data);
        r := Ok(());
      }
    }

    method CopyBytes(offset: nat, data: Bytes)
      requires offset + |data| <= inputImage.Length
      modifies inputImage
      ensures inputImage[..] == WriteField(old(inputImage[..]), 8 * offset, Unpack(data))
    {
      for i := 0 to |data|
        invariant forall j :: 0 <= j < inputImage.Length ==>
                    inputImage[j] == if offset <= j < offset + i then data[j - offset] else old(inputImage[j])
      {
        inputImage[offset + i] := data[i];
      }
      ghost var was := old(inputImage[..]);
      assert inputImage[..] == was[..offset] + data + was[offset + |data|..];
      ByteCopyWrites(was, offset, data);
    }

    /** The slave's write: a byte copy for aligned fields, a bit loop otherwise. */
    method WriteBits(data: Bytes, p: Position) returns (r: Result<()>)
      requires Valid() && kind.BitGranular?
      modifies inputImage
      ensures r.Ok? <==> WriteInputs(kind, old(inputImage[..]), data, p).Ok?
      ensures r.Ok? ==> Ok(inputImage[..]) == WriteInputs(kind, old(inputImage[..]), data, p)
      ensures r.Err? ==> r.code == ErrInvalidLen && inputImage[..] == old(inputImage[..])
    {
      var fieldByteLen := BitLenToByteLen(p.bitLen);
      var spanBits := SaturatingAdd32(p.bitOffset, p.bitLen);
      var offset := p.byteOffset;
      var end := offset + BitLenToByteLen(spanBits);
      BoundsCheck(inputImage.Length, p);
      if offset >= inputImage.Length || end > inputImage.Length || fieldByteLen != |data| {
        return Err(ErrInvalidLen);
      }
      if p.bitOffset == 0 && p.bitLen % 8 == 0 {
        CopyBytes(offset, data);
        assert Unpack(data)[..p.bitLen] == Unpack(data);
        return Ok(());
      }
      BitLoop(data, p);
      r := Ok(());
    }

    method BitLoop(data: Bytes, p: Position)
      requires Valid() && kind.BitGranular? && FieldFits(kind, inputImage.Length, p)
      requires |data| == BitLenToByteLen(p.bitLen)
      modifies inputImage
      ensures inputImage[..] == WriteField(old(inputImage[..]), FieldStart(kind, p), Unpack(data)[..p.bitLen])
    {
      BoundsCheck(inputImage.Length, p);
      ghost var was := inputImage[..];
      ghost var start := FieldStart(kind, p);
      for i := 0 to p.bitLen
        invariant Written(was, inputImage[..], data, start, i)
      {
        AndMask(data[i / 8], i % 8);
        var bitSet := And(data[i / 8], Pow2(i % 8)) != 0;
        var dstBit: u32 := p.bitOffset + i;
        var target := p.byteOffset + dstBit / 8;
        SameBitIndex(p.byteOffset, dstBit);
        ghost var before := inputImage[..];
        inputImage[target] := PutBit(inputImage[target], dstBit % 8, bitSet);
        assert inputImage[..] == before[(start + i) / 8 := PutBit(before[(start + i) / 8], (start + i) % 8, bitSet)];
        ghost var after := inputImage[..];
        PutsOneBit(was, before, after, data, start, i, bitSet);
      }
      WriteFieldUnique(was, start, Unpack(data)[..p.bitLen], inputImage[..]);
    }
  }
}
