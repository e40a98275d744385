/** Big-endian encoding of fixed-width unsigned integers (`to_be_bytes`, `from_be_bytes`). */
module BigEndian {
  import opened Types

  function Pow256(k: nat): (r: nat)
    ensures r >= 1
  {
    if k == 0 then 1 else 256 * Pow256(k - 1)
  }

  function ToBe(n: nat, width: nat): (r: Bytes)
    ensures |r| == width
    decreases width
  {
    if width == 0 then [] else ToBe(n / 256, width - 1) + [n % 256]
  }

  function FromBe(s: Bytes): (r: nat)
    ensures r < Pow256(|s|)
  {
    if s == [] then 0 else 256 * FromBe(s[..|s| - 1]) + s[|s| - 1]
  }

  lemma {:induction false} DecodeEncode(n: nat, width: nat)
    requires n < Pow256(width)
    ensures FromBe(ToBe(n, width)) == n
    decreases width
  {
    if width > 0 {
      DecodeEncode(n / 256, width - 1);
      assert ToBe(n, width)[..width - 1] == ToBe(n / 256, width - 1);
    }
  }

  lemma {:induction false} EncodeDecode(s: Bytes)
    ensures ToBe(FromBe(s), |s|) == s
  {
    if s != [] {
      EncodeDecode(s[..|s| - 1]);
      assert FromBe(s) / 256 == FromBe(s[..|s| - 1]);
      assert s == s[..|s| - 1] + [s[|s| - 1]];
    }
  }

  lemma Widths()
    ensures Pow256(1) == 0x100
    ensures Pow256(2) == 0x1_0000
    ensures Pow256(4) == 0x1_0000_0000
    ensures Pow256(8) == 0x1_0000_0000_0000_0000
  {
    assert Pow256(3) == 0x100_0000;
    assert Pow256(5) == 0x100_0000_0000;
    assert Pow256(6) == 0x1_0000_0000_0000;
  }

  function U16(s: Bytes): u16
    requires |s| == 2
  {
    Widths();
    FromBe(s)
  }

  function U32(s: Bytes): u32
    requires |s| == 4
  {
    Widths();
    FromBe(s)
  }

  function U64(s: Bytes): u64
    requires |s| == 8
  {
    Widths();
    FromBe(s)
  }

  lemma RoundTrip16(n: u16)
    ensures U16(ToBe(n, 2)) == n
  {
    Widths();
    DecodeEncode(n, 2);
  }

  lemma RoundTrip32(n: u32)
    ensures U32(ToBe(n, 4)) == n
  {
    Widths();
    DecodeEncode(n, 4);
  }

  lemma RoundTrip64(n: u64)
    ensures U64(ToBe(n, 8)) == n
  {
    Widths();
    DecodeEncode(n, 8);
  }

  /** The two bytes of a 16-bit value, written as shift and truncation. */
  lemma Split16(n: u16)
    ensures ToBe(n, 2) == [n / 256, n % 256]
  {
    assert ToBe(n / 256, 1) == [] + [n / 256 % 256];
  }
}
