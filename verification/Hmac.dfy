/** HMAC, and its computation for a message whose length must not show. */
module Hmac {
  import opened Bytes

  function XorByte(a: byte, b: byte): byte
  {
    assert Pow2(8) == 256;
    XorWidth(a, b, 8);
    XorBits(a, b, 8)
  }

  /** The key padded with zeros to the block size, each byte XORed with `mask`. */
  function PadKey(key: bytes, block: nat, mask: byte): (k: bytes)
    requires |key| <= block
    ensures |k| == block
    ensures forall i :: 0 <= i < block ==> k[i] == if i < |key| then XorByte(key[i], mask) else mask
  {
    seq(block, i requires 0 <= i < block => if i < |key| then XorByte(key[i], mask) else mask)
  }

  /** Section 2 of RFC 2104. */
  function HmacOf(hash: bytes -> bytes, block: nat, key: bytes, msg: bytes): bytes
    requires |key| <= block
  {
    hash(PadKey(key, block, 0x5c) + hash(PadKey(key, block, 0x36) + msg))
  }

  /** The outer key block and the inner one, with their masks: with a hash that keeps its
      input both can be seen. */
  lemma HmacBlocks(key: bytes, msg: bytes)
    requires |key| <= 64
    ensures var s := HmacOf(x => x, 64, key, msg);
      && |s| == 128 + |msg| && s[128..] == msg
      && (forall i :: 0 <= i < 64 ==> s[i] == if i < |key| then XorByte(key[i], 0x5c) else 0x5c)
      && forall i :: 0 <= i < 64 ==> s[64..][i] == if i < |key| then XorByte(key[i], 0x36) else 0x36
  {
    hide XorByte;
  }

  lemma BitTwice(x: nat, a: nat, b: nat)
    ensures var y := x * 2 + (a + b) % 2; y / 2 == x && (y + b) % 2 == a % 2
  {
  }

  lemma {:induction false} XorTwice(a: nat, b: nat, width: nat)
    requires a < Pow2(width)
    ensures XorBits(XorBits(a, b, width), b, width) == a
    decreases width
  {
    if width > 0 {
      BitTwice(XorBits(a / 2, b / 2, width - 1), a, b);
      XorTwice(a / 2, b / 2, width - 1);
    }
  }

  /** Turn the key in the buffer, or the inner key already there, into the next one. */
  method MaskKey(keyBuf: array<byte>, keyLen: nat, unmask: bool, mask: byte, ghost key: bytes)
    requires |key| == keyLen <= keyBuf.Length
    requires keyBuf[..keyLen] == if unmask then PadKey(key, keyBuf.Length, 0x36)[..keyLen] else key
    modifies keyBuf
    ensures keyBuf[..] == PadKey(key, keyBuf.Length, mask)
  {
    ghost var before := keyBuf[..keyLen];
    var i := 0;
    while i < keyLen
      invariant 0 <= i <= keyLen
      invariant forall j :: 0 <= j < i ==> keyBuf[j] == XorByte(key[j], mask)
      invariant forall j :: i <= j < keyLen ==> keyBuf[j] == before[j]
    {
      assert Pow2(8) == 256;
      XorTwice(key[i], 0x36, 8);
      keyBuf[i] := XorByte(if unmask then XorByte(keyBuf[i], 0x36) else keyBuf[i], mask);
      i := i + 1;
    }
    while i < keyBuf.Length
      invariant keyLen <= i <= keyBuf.Length
      invariant forall j :: 0 <= j < keyLen ==> keyBuf[j] == XorByte(key[j], mask)
      invariant forall j :: keyLen <= j < i ==> keyBuf[j] == mask
    {
      keyBuf[i] := mask;
      i := i + 1;
    }
  }

  /** mbedtls_ct_hmac: the inner hash is finished at every possible length and only
      the right one is kept. A hash operation is the bytes it has absorbed. */
  method CtHmac(hash: bytes -> bytes, block: nat, key: bytes, addData: bytes,
                buf: array<byte>, off: nat, dataLenSecret: nat, minDataLen: nat, maxDataLen: nat)
    returns (output: bytes)
    requires |key| <= block
    requires minDataLen <= dataLenSecret <= maxDataLen && off + maxDataLen <= buf.Length
    ensures output == HmacOf(hash, block, key, addData + buf[off..off + dataLenSecret])
  {
    var keyBuf := new byte[block](i => if 0 <= i < |key| then key[i] else 0);
    assert keyBuf[..|key|] == key;
    MaskKey(keyBuf, |key|, false, 0x36, key);
    ghost var ikey := keyBuf[..];
    var operation := keyBuf[..] + addData + buf[off..off + minDataLen];
    output := [];
    var offset := minDataLen;
    while offset <= maxDataLen
      invariant minDataLen <= offset <= maxDataLen + 1
      invariant operation == ikey + addData + buf[off..off + Min(offset, maxDataLen)]
      invariant offset > dataLenSecret ==> output == hash(ikey + addData + buf[off..off + dataLenSecret])
      invariant keyBuf[..] == ikey
    {
      var auxOut := hash(operation);
      if offset == dataLenSecret {
        output := auxOut;
      }
      if offset < maxDataLen {
        assert buf[off..off + offset + 1] == buf[off..off + offset] + [buf[off + offset]];
        operation := operation + [buf[off + offset]];
      }
      offset := offset + 1;
    }
    assert ikey + addData + buf[off..off + dataLenSecret] == ikey + (addData + buf[off..off + dataLenSecret]);
    MaskKey(keyBuf, |key|, true, 0x5c, key);
    output := hash(keyBuf[..] + output);
  }
}
