/** The reassembly bitmask: one bit per byte of a handshake message, most
    significant bit first, stored behind the message in the same allocation. */
module Bitmask {
  import opened Bytes

  /** Bit j of the mask that starts at `base`. */
  predicate Bit(mask: bytes, base: nat, j: nat)
    requires base + j / 8 < |mask|
  {
    BitOn(mask[base + j / 8], 7 - j % 8)
  }

  function MaskBytes(len: nat): nat
  {
    len / 8 + if len % 8 != 0 then 1 else 0
  }

  lemma FullByte(b: byte)
    ensures b == 0xFF <==> AllOn(b, 8)
  {
    assert Pow2(8) == 256;
    AllBitsOn(b, 8);
  }

  /** mask[idx] |= 1 << k turns on bit 8 * idx + (7 - k) and nothing else. */
  method SetOne(mask: array<byte>, base: nat, idx: nat, k: nat)
    requires base + idx < mask.Length && k < 8
    modifies mask
    ensures forall i :: 0 <= i < base ==> mask[i] == old(mask[i])
    ensures forall j: nat :: base + j / 8 < mask.Length ==>
      Bit(mask[..], base, j) == (j == 8 * idx + 7 - k || Bit(old(mask[..]), base, j))
  {
    ghost var b := mask[base + idx];
    assert Pow2(8) == 256;
    OrBitWidth(b, k, 8);
    forall m: nat
      ensures BitOn(OrBit(b, k), m) == (m == k || BitOn(b, m))
    {
      OrBitSetsOne(b, k, m);
    }
    mask[base + idx] := OrBit(mask[base + idx], k);
  }

  method Set(mask: array<byte>, base: nat, offset0: nat, len0: nat)
    requires base + MaskBytes(offset0 + len0) <= mask.Length
    modifies mask
    ensures forall i :: 0 <= i < base ==> mask[i] == old(mask[i])
    ensures forall j: nat :: base + j / 8 < mask.Length ==>
      Bit(mask[..], base, j) == (offset0 <= j < offset0 + len0 || Bit(old(mask[..]), base, j))
  {
    var offset, len := offset0, len0;
    var startBits := 8 - offset % 8;
    if startBits != 8 {
      var firstByte := offset / 8;
      if len <= startBits {
        while len != 0
          invariant 0 <= len <= len0
          invariant forall i :: 0 <= i < base ==> mask[i] == old(mask[i])
          invariant forall j: nat :: base + j / 8 < mask.Length ==>
            Bit(mask[..], base, j) == (offset0 + len <= j < offset0 + len0 || Bit(old(mask[..]), base, j))
        {
          SetOne(mask, base, firstByte, startBits - len);
          len := len - 1;
        }
        return;
      }
      offset := offset + startBits;
      len := len - startBits;
      while startBits != 0
        invariant 0 <= startBits <= 8 - offset0 % 8
        invariant forall i :: 0 <= i < base ==> mask[i] == old(mask[i])
        invariant forall j: nat :: base + j / 8 < mask.Length ==>
          Bit(mask[..], base, j) == (offset0 <= j < offset - startBits || Bit(old(mask[..]), base, j))
      {
        SetOne(mask, base, firstByte, startBits - 1);
        startBits := startBits - 1;
      }
    }
    SetFromByteBoundary(mask, base, offset, len);
  }

  /** The rest of ssl_bitmask_set, once the offset is a multiple of 8. */
  method SetFromByteBoundary(mask: array<byte>, base: nat, offset: nat, len0: nat)
    requires offset % 8 == 0 && base + MaskBytes(offset + len0) <= mask.Length
    modifies mask
    ensures forall i :: 0 <= i < base ==> mask[i] == old(mask[i])
    ensures forall j: nat :: base + j / 8 < mask.Length ==>
      Bit(mask[..], base, j) == (offset <= j < offset + len0 || Bit(old(mask[..]), base, j))
  {
    var len := len0;
    var endBits := len % 8;
    if endBits != 0 {
      var lastByte := (offset + len) / 8;
      len := len - endBits;
      while endBits != 0
        invariant 0 <= endBits <= len0 - len < 8
        invariant 8 * lastByte == offset + len
        invariant forall i :: 0 <= i < base ==> mask[i] == old(mask[i])
        invariant forall j: nat :: base + j / 8 < mask.Length ==>
          Bit(mask[..], base, j) == (offset + len + endBits <= j < offset + len0 || Bit(old(mask[..]), base, j))
      {
        SetOne(mask, base, lastByte, 8 - endBits);
        endBits := endBits - 1;
      }
    }
    ghost var before := mask[..];
    ghost var full: byte := 0xFF;
    FullByte(full);
    ghost var first, whole := offset / 8, len / 8;
    assert offset == 8 * first && len == 8 * whole;
    forall i | 0 <= i < len / 8 {
      mask[base + offset / 8 + i] := 0xFF;
    }
    forall j: nat | base + j / 8 < mask.Length
      ensures Bit(mask[..], base, j) == (offset <= j < offset + len || Bit(before, base, j))
    {
      assert offset <= j < offset + len <==> first <= j / 8 < first + whole;
      if first <= j / 8 < first + whole {
        assert mask[base + offset / 8 + (j / 8 - first)] == 0xFF;
        assert BitOn(full, 7 - j % 8);
      } else {
        assert mask[base + j / 8] == before[base + j / 8];
      }
    }
  }

  method Check(mask: array<byte>, base: nat, len: nat) returns (full: bool)
    requires base + MaskBytes(len) <= mask.Length
    ensures full <==> forall j: nat :: j < len ==> Bit(mask[..], base, j)
  {
    for i := 0 to len / 8
      invariant forall j: nat :: j < 8 * i ==> Bit(mask[..], base, j)
    {
      FullByte(mask[base + i]);
      if mask[base + i] != 0xFF {
        var k: nat :| k < 8 && !BitOn(mask[base + i], k);
        assert !Bit(mask[..], base, 8 * i + (7 - k));
        return false;
      }
    }
    for i := 0 to len % 8
      invariant forall j: nat :: j < 8 * (len / 8) + i ==> Bit(mask[..], base, j)
    {
      if !BitOn(mask[base + len / 8], 7 - i) {
        assert !Bit(mask[..], base, 8 * (len / 8) + i);
        return false;
      }
    }
    return true;
  }
}
