/** Bytes, buffers, big-endian numbers and bit operations, shared by all components. */
module Bytes {

  type byte = x: int | 0 <= x < 256
  type bytes = seq<byte>

  datatype Option<+T> = None | Some(value: T)

  function Min(a: nat, b: nat): nat
  {
    if a <= b then a else b
  }

  function U16At(s: bytes, i: nat): (n: nat)
    requires i + 2 <= |s|
    ensures n < 0x1_0000
  {
    s[i] as int * 0x100 + s[i + 1] as int
  }

  function U24At(s: bytes, i: nat): (n: nat)
    requires i + 3 <= |s|
    ensures n < 0x100_0000
  {
    s[i] as int * 0x1_0000 + s[i + 1] as int * 0x100 + s[i + 2] as int
  }

  /** The stores keep the low bytes only, as the C macros do. */
  function PutU16(n: nat): (s: bytes)
    ensures |s| == 2
  {
    [n / 0x100 % 0x100, n % 0x100]
  }

  function PutU24(n: nat): (s: bytes)
    ensures |s| == 3
  {
    [n / 0x1_0000 % 0x100, n / 0x100 % 0x100, n % 0x100]
  }

  lemma U16RoundTrip(n: nat)
    requires n < 0x1_0000
    ensures U16At(PutU16(n), 0) == n
  {
  }

  lemma U24RoundTrip(n: nat)
    requires n < 0x100_0000
    ensures U24At(PutU24(n), 0) == n
  {
    var a := n / 0x100;
    assert a / 0x100 == n / 0x1_0000 && a / 0x100 < 0x100;
    assert n == a * 0x100 + n % 0x100;
    assert a == a / 0x100 * 0x100 + a % 0x100;
  }

  lemma PutU16At(s: bytes, i: nat)
    requires i + 2 <= |s|
    ensures PutU16(U16At(s, i)) == s[i..i + 2]
  {
  }

  lemma PutU24At(s: bytes, i: nat)
    requires i + 3 <= |s|
    ensures PutU24(U24At(s, i)) == s[i..i + 3]
  {
    var n := U24At(s, i);
    assert n / 0x1_0000 == s[i] as int && n / 0x100 == s[i] as int * 0x100 + s[i + 1] as int;
  }

  function Zeros(n: nat): (s: bytes)
    ensures |s| == n && forall i | 0 <= i < n :: s[i] == 0
  {
    seq(n, _ => 0)
  }

  /** Bit k of b, counted from the least significant one. */
  predicate BitOn(b: nat, k: nat)
    decreases k
  {
    if k == 0 then b % 2 == 1 else BitOn(b / 2, k - 1)
  }

  /** b | (1 << k) */
  function OrBit(b: nat, k: nat): nat
    decreases k
  {
    if k == 0 then b / 2 * 2 + 1 else OrBit(b / 2, k - 1) * 2 + b % 2
  }

  /** a ^ b on the low `width` bits. */
  function XorBits(a: nat, b: nat, width: nat): nat
    decreases width
  {
    if width == 0 then 0 else XorBits(a / 2, b / 2, width - 1) * 2 + (a + b) % 2
  }

  function Pow2(k: nat): (n: nat)
    ensures n > 0
  {
    if k == 0 then 1 else 2 * Pow2(k - 1)
  }

  lemma {:induction false} OrBitSetsOne(b: nat, k: nat, j: nat)
    ensures BitOn(OrBit(b, k), j) == (j == k || BitOn(b, j))
    decreases k
  {
    if k > 0 && j > 0 {
      OrBitSetsOne(b / 2, k - 1, j - 1);
    }
  }

  lemma {:induction false} ZeroHasNoBits(k: nat)
    ensures !BitOn(0, k)
    decreases k
  {
    if k > 0 {
      ZeroHasNoBits(k - 1);
    }
  }

  lemma {:induction false} OrBitWidth(b: nat, k: nat, width: nat)
    requires b < Pow2(width) && k < width
    ensures OrBit(b, k) < Pow2(width)
    decreases k
  {
    if k > 0 {
      OrBitWidth(b / 2, k - 1, width - 1);
    }
  }

  lemma {:induction false} XorWidth(a: nat, b: nat, width: nat)
    ensures XorBits(a, b, width) < Pow2(width)
    decreases width
  {
    if width > 0 {
      XorWidth(a / 2, b / 2, width - 1);
    }
  }

  lemma XorLowBit(x: nat, y: nat, a: nat, b: nat, c: nat)
    requires x * 2 + (a + b) % 2 == y * 2 + (a + c) % 2
    ensures x == y && b % 2 == c % 2
  {
    assert (a + b) % 2 == (a + c) % 2;
  }

  lemma {:induction false} XorInjective(a: nat, b: nat, c: nat, width: nat)
    requires b < Pow2(width) && c < Pow2(width)
    requires XorBits(a, b, width) == XorBits(a, c, width)
    ensures b == c
    decreases width
  {
    if width > 0 {
      XorLowBit(XorBits(a / 2, b / 2, width - 1), XorBits(a / 2, c / 2, width - 1), a, b, c);
      XorInjective(a / 2, b / 2, c / 2, width - 1);
    }
  }

  predicate AllOn(b: nat, width: nat)
  {
    forall k: nat :: k < width ==> BitOn(b, k)
  }

  lemma {:induction false} AllBitsOn(b: nat, width: nat)
    requires b < Pow2(width)
    ensures b == Pow2(width) - 1 <==> AllOn(b, width)
    decreases width
  {
    if width > 0 {
      AllBitsOn(b / 2, width - 1);
      assert b == b / 2 * 2 + b % 2;
      if AllOn(b, width) {
        assert BitOn(b, 0);
        forall k: nat | k < width - 1
          ensures BitOn(b / 2, k)
        {
          assert BitOn(b, k + 1);
        }
      } else if AllOn(b / 2, width - 1) {
        var k: nat :| k < width && !BitOn(b, k);
        assert k > 0 ==> BitOn(b / 2, k - 1);
      }
    }
  }

  lemma Assoc(a: bytes, b: bytes, c: bytes)
    ensures (a + b) + c == a + (b + c)
  {
  }

  lemma SliceIs(a: array<byte>, from: nat, s: bytes)
    requires from + |s| <= a.Length && forall k :: 0 <= k < |s| ==> a[from + k] == s[k]
    ensures a[from..from + |s|] == s
  {
  }

  /** memcpy and memmove: source and destination may be the same array. */
  method Copy(src: array<byte>, from: nat, dst: array<byte>, to: nat, len: nat)
    requires from + len <= src.Length && to + len <= dst.Length
    modifies dst
    ensures forall i {:trigger dst[i]} :: 0 <= i < dst.Length ==>
      dst[i] == if to <= i < to + len then old(src[from + (i - to)]) else old(dst[i])
  {
    forall i | 0 <= i < len {
      dst[to + i] := src[from + i];
    }
  }

  /** The bytes at `from` move down to `to`. */
  method MoveDown(buf: array<byte>, from: nat, to: nat, len: nat)
    requires to <= from && from + len <= buf.Length
    modifies buf
    ensures buf[to..to + len] == old(buf[from..from + len])
  {
    ghost var s := buf[from..from + len];
    Copy(buf, from, buf, to, len);
    SliceIs(buf, to, s);
  }

  method WriteAt(buf: array<byte>, at: nat, s: bytes)
    requires at + |s| <= buf.Length
    modifies buf
    ensures buf[at..at + |s|] == s
    ensures buf[..at] == old(buf[..at]) && buf[at + |s|..] == old(buf[at + |s|..])
  {
    forall i | 0 <= i < |s| {
      buf[at + i] := s[i];
    }
  }
}
