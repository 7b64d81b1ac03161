/** The branch-free check of the CBC padding. Secret conditions are booleans here; only
    the functional result is modelled. */
module CbcPadding {
  import opened Bytes
  import opened RecordFormat

  function SizeIfElse0(cond: bool, v: nat): nat
  {
    if cond then v else 0
  }

  /** The decrypted record is buf[off..off + len]; `extra` is the room the MAC needs.
      Returns whether the padding is right, and the number of bytes to strip: the
      padding with its length byte, or 0. */
  method CheckPadding(buf: array<byte>, off: nat, len: nat, extra: nat) returns (correct: bool, padlen: nat)
    requires off + len <= buf.Length && len > extra
    ensures correct == PaddingOk(buf[off..off + len], extra)
    ensures padlen == if correct then buf[off + len - 1] as int + 1 else 0
    ensures padlen <= 256 && padlen + extra <= len
  {
    ghost var s := buf[off..off + len];
    padlen := buf[off + len - 1];
    var ge := len >= extra + padlen + 1;
    padlen := SizeIfElse0(ge, padlen);
    padlen := padlen + 1;
    var padCount: nat := 0;
    var paddingIdx: nat := len - padlen;
    var numChecks := if len <= 256 then len else 256;
    var idx: nat := len - numChecks;
    while idx < len
      invariant len - numChecks <= idx <= len
      invariant 0 <= padCount <= if idx >= paddingIdx then idx - paddingIdx else 0
      invariant padCount == (if idx >= paddingIdx then idx - paddingIdx else 0)
        <==> forall i :: paddingIdx <= i < idx ==> s[i] == padlen - 1
    {
      var increment := SizeIfElse0(idx >= paddingIdx, 1);
      increment := SizeIfElse0(buf[off + idx] == padlen - 1, increment);
      padCount := padCount + increment;
      idx := idx + 1;
    }
    correct := padCount == padlen && ge;
    padlen := SizeIfElse0(correct, padlen);
  }
}
