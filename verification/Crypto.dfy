/** Keyed authentication tags. The keyed hash itself is a parameter: any function of the bytes. */
module Crypto {
  import opened Types
  import opened Bits

  /** The keyed hash under one shared secret, truncated to a tag. */
  type KeyedMac = Bytes -> Tag

  function Concat(parts: seq<Bytes>): Bytes {
    if parts == [] then [] else Concat(parts[..|parts| - 1]) + parts[|parts| - 1]
  }

  lemma Concat3(a: Bytes, b: Bytes, c: Bytes)
    ensures Concat([a, b, c]) == a + b + c
  {
    var s := [a, b, c];
    assert s[..2] == [a, b] && s[..2][..1] == [a];
    assert Concat([a]) == Concat([a][..0]) + a;
    assert Concat([a, b]) == Concat([a]) + b;
  }

  /** Feeds the hasher part by part; only the concatenation of the parts matters. */
  method CalculateHmac(mac: KeyedMac, parts: seq<Bytes>) returns (tag: Tag)
    ensures tag == mac(Concat(parts))
  {
    var absorbed: Bytes := [];
    for i := 0 to |parts|
      invariant absorbed == Concat(parts[..i])
    {
      absorbed := absorbed + parts[i];
      assert parts[..i + 1][..i] == parts[..i];
    }
    assert parts[..|parts|] == parts;
    tag := mac(absorbed);
  }

  /** One step of the comparison: the difference stays zero exactly when the bytes agree. */
  lemma DiffStep(diff: byte, a: byte, b: byte)
    ensures Xor(a, b) < 256 && Or(diff, Xor(a, b)) < 256
    ensures Or(diff, Xor(a, b)) == 0 <==> diff == 0 && a == b
  {
    ByteWidth();
    OpBound(a, b, 8);
    OpBound(diff, Xor(a, b), 8);
    XorZero(a, b);
    OrZero(diff, Xor(a, b));
  }

  /** The accumulation of `left ^ right` over all bytes is zero exactly on equal tags. */
  method VerifyHmac(mac: KeyedMac, parts: seq<Bytes>, expected: Tag) returns (valid: bool)
    ensures valid <==> expected == mac(Concat(parts))
  {
    var calculated := CalculateHmac(mac, parts);
    var diff: byte := 0;
    for i := 0 to |calculated|
      invariant diff == 0 <==> calculated[..i] == expected[..i]
    {
      DiffStep(diff, calculated[i], expected[i]);
      diff := Or(diff, Xor(calculated[i], expected[i]));
      assert calculated[..i + 1] == calculated[..i] + [calculated[i]];
      assert expected[..i + 1] == expected[..i] + [expected[i]];
    }
    assert calculated[..8] == calculated && expected[..8] == expected;
    valid := diff == 0;
  }
}
