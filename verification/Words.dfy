/** Numbers stored in bytes, lowest byte first. */
module Words {
  const U64_LIMIT: nat := 0x1_0000_0000_0000_0000

  type byte = x: nat | x < 256

  function Pow256(n: nat): (p: nat)
    ensures p > 0
  {
    if n == 0 then 1 else 256 * Pow256(n - 1)
  }

  /** The number stored in these bytes, lowest byte first. */
  function Decode(bytes: seq<byte>): nat {
    DecodeFrom(bytes, 0)
  }

  function DecodeFrom(bytes: seq<byte>, i: nat): nat
    requires i <= |bytes|
    decreases |bytes| - i
  {
    if i == |bytes| then 0 else bytes[i] + 256 * DecodeFrom(bytes, i + 1)
  }

  lemma {:induction false} DecodeShift(b: byte, bytes: seq<byte>, i: nat)
    requires i <= |bytes|
    ensures DecodeFrom([b] + bytes, i + 1) == DecodeFrom(bytes, i)
    decreases |bytes| - i
  {
    if i < |bytes| {
      DecodeShift(b, bytes, i + 1);
      assert ([b] + bytes)[i + 1] == bytes[i];
    }
  }

  lemma DecodeFirst(b: byte, rest: seq<byte>, bytes: seq<byte>)
    requires bytes == [b] + rest
    ensures Decode(bytes) == b + 256 * Decode(rest)
  {
    DecodeShift(b, rest, 0);
  }

  lemma {:induction false} DecodeBound(bytes: seq<byte>, i: nat)
    requires i <= |bytes|
    ensures DecodeFrom(bytes, i) < Pow256(|bytes| - i)
    decreases |bytes| - i
  {
    if i < |bytes| {
      DecodeBound(bytes, i + 1);
    }
  }

  lemma {:induction false} DecodeZeros(bytes: seq<byte>, i: nat)
    requires i <= |bytes| && forall k | i <= k < |bytes| :: bytes[k] == 0
    ensures DecodeFrom(bytes, i) == 0
    decreases |bytes| - i
  {
    if i < |bytes| {
      DecodeZeros(bytes, i + 1);
    }
  }

  lemma DecodeLowByte(bytes: seq<byte>)
    requires bytes != [] && forall k | 1 <= k < |bytes| :: bytes[k] == 0
    ensures Decode(bytes) == bytes[0]
  {
    DecodeZeros(bytes, 1);
  }

  function Encode(v: nat, width: nat): (bytes: seq<byte>)
    ensures |bytes| == width
  {
    if width == 0 then [] else [v % 256] + Encode(v / 256, width - 1)
  }

  lemma {:induction false} DecodeEncode(v: nat, width: nat)
    requires v < Pow256(width)
    ensures Decode(Encode(v, width)) == v
  {
    if width > 0 {
      DecodeEncode(v / 256, width - 1);
      DecodeShift(v % 256, Encode(v / 256, width - 1), 0);
    }
  }

  lemma WordLimits()
    ensures Pow256(4) == 0x1_0000_0000 && Pow256(8) == 0x1_0000_0000_0000_0000
  {
    assert Pow256(1) == 256 && Pow256(2) == 0x1_0000 && Pow256(3) == 0x100_0000;
    assert Pow256(5) == 0x100_0000_0000 && Pow256(6) == 0x1_0000_0000_0000 && Pow256(7) == 0x100_0000_0000_0000;
  }

  function Put(bytes: seq<byte>, offset: nat, width: nat, v: nat): (r: seq<byte>)
    requires offset + width <= |bytes|
    ensures |r| == |bytes|
  {
    bytes[..offset] + Encode(v, width) + bytes[offset + width..]
  }

  lemma PutHere(bytes: seq<byte>, offset: nat, width: nat, v: nat)
    requires offset + width <= |bytes| && v < Pow256(width)
    ensures Decode(Put(bytes, offset, width, v)[offset..offset + width]) == v
  {
    DecodeEncode(v, width);
    assert Put(bytes, offset, width, v)[offset..offset + width] == Encode(v, width);
  }

  lemma PutElsewhere(bytes: seq<byte>, offset: nat, width: nat, v: nat, o: nat, w: nat)
    requires offset + width <= |bytes| && o + w <= |bytes| && (offset + width <= o || o + w <= offset)
    ensures Put(bytes, offset, width, v)[o..o + w] == bytes[o..o + w]
  {
    var r := Put(bytes, offset, width, v);
    forall k | o <= k < o + w ensures r[k] == bytes[k] {
      if offset + width <= k {
        assert r[k] == bytes[offset + width..][k - (offset + width)];
      }
    }
  }
}
