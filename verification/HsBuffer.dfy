/** One slot of the DTLS handshake buffer (struct mbedtls_ssl_hs_buffer): message
    bytes and reassembly bitmap share one allocation. */
module HsBuffers {
  import opened Bytes
  import opened Bitmask
  import opened Reassembly

  // ---------- What the bytes of the shared allocation mean

  predicate Layout(d: bytes, fragmented: bool)
  {
    HDR <= |d| && |d| == BufferSize(U24At(d, 1), fragmented)
  }

  function HaveOf(d: bytes, fragmented: bool, complete: bool): (have: seq<bool>)
    requires Layout(d, fragmented)
    ensures |have| == U24At(d, 1)
    ensures forall j :: 0 <= j < |have| ==>
      have[j] == if fragmented then Bit(d, HDR + |have|, j) else complete
  {
    var len := U24At(d, 1);
    seq(len, j requires 0 <= j < len => if fragmented then Bit(d, HDR + len, j) else complete)
  }

  function SlotOf(d: bytes, fragmented: bool, complete: bool): Slot
    requires Layout(d, fragmented)
  {
    Slot(d[..HDR], d[HDR..HDR + U24At(d, 1)], HaveOf(d, fragmented, complete), fragmented, complete)
  }

  lemma FreshBytes(d: bytes, s: bytes)
    requires |s| >= HDR && |d| == BufferSize(TotalLen(s), IsFragment(s))
    requires d[..HDR] == s[..6] + [0, 0, 0] + s[1..4]
    requires forall i :: HDR <= i < |d| ==> d[i] == 0
    ensures Layout(d, IsFragment(s)) && SlotOf(d, IsFragment(s), false) == FreshSlot(s)
  {
    assert forall i :: 0 <= i < HDR ==> d[i] == d[..HDR][i];
    var slot := SlotOf(d, IsFragment(s), false);
    forall j | 0 <= j < TotalLen(s)
      ensures !slot.have[j]
    {
      ZeroHasNoBits(7 - j % 8);
    }
  }

  lemma AcceptBytes(d: bytes, d': bytes, s: bytes, fragmented: bool, complete: bool, base: nat)
    requires |s| >= HDR && HeaderOk(s) && Layout(d, fragmented) && |d'| == |d|
    requires U24At(d, 1) == TotalLen(s) && base == HDR + TotalLen(s)
    requires !fragmented ==> !complete && !IsFragment(s)
    requires forall i :: 0 <= i < base ==>
      d'[i] == if HDR + FragOff(s) <= i < HDR + FragOff(s) + FragLen(s) then s[i - FragOff(s)] else d[i]
    requires fragmented ==> forall j: nat :: j < TotalLen(s) ==>
      Bit(d', base, j) == (FragOff(s) <= j < FragOff(s) + FragLen(s) || Bit(d, base, j))
    ensures Layout(d', fragmented)
    ensures var slot := Accept(SlotOf(d, fragmented, complete), s);
      && SlotOf(d', fragmented, slot.complete) == slot
      && (slot.complete <==> fragmented ==> forall j: nat :: j < TotalLen(s) ==> Bit(d', base, j))
  {
    hide Bit, HeaderOk;
    AcceptBody(d, d', s, base);
    assert U24At(d', 1) == U24At(d, 1);
    AcceptHave(d, d', s, fragmented, complete, base);
    var slot, slot' := SlotOf(d, fragmented, complete),
      SlotOf(d', fragmented, Accept(SlotOf(d, fragmented, complete), s).complete);
    assert slot'.header == slot.header && slot'.body == Accept(slot, s).body && slot'.have == Accept(slot, s).have;
  }

  lemma AcceptBody(d: bytes, d': bytes, s: bytes, base: nat)
    requires |s| >= HDR && HeaderOk(s) && base == HDR + TotalLen(s) <= |d| == |d'|
    requires forall i :: 0 <= i < base ==>
      d'[i] == if HDR + FragOff(s) <= i < HDR + FragOff(s) + FragLen(s) then s[i - FragOff(s)] else d[i]
    ensures var body, off, len := d[HDR..base], FragOff(s), FragLen(s);
      d'[HDR..base] == body[..off] + s[HDR..HDR + len] + body[off + len..]
    ensures d'[..HDR] == d[..HDR] && d'[1] == d[1] && d'[2] == d[2] && d'[3] == d[3]
  {
  }

  lemma AcceptHave(d: bytes, d': bytes, s: bytes, fragmented: bool, complete: bool, base: nat)
    requires |s| >= HDR && HeaderOk(s) && Layout(d, fragmented) && Layout(d', fragmented)
    requires U24At(d, 1) == U24At(d', 1) == TotalLen(s) && base == HDR + TotalLen(s)
    requires !fragmented ==> !complete && !IsFragment(s)
    requires fragmented ==> forall j: nat :: j < TotalLen(s) ==>
      Bit(d', base, j) == (FragOff(s) <= j < FragOff(s) + FragLen(s) || Bit(d, base, j))
    ensures var have := AddRange(HaveOf(d, fragmented, complete), FragOff(s), FragLen(s));
      HaveOf(d', fragmented, if fragmented then AllHave(have) else true) == have
      && (fragmented ==> (AllHave(have) <==> forall j: nat :: j < TotalLen(s) ==> Bit(d', base, j)))
  {
    var have := AddRange(HaveOf(d, fragmented, complete), FragOff(s), FragLen(s));
    if fragmented {
      assert forall j: nat :: j < TotalLen(s) ==> have[j] == Bit(d', base, j);
    }
  }

  /** struct mbedtls_ssl_hs_buffer */
  datatype HsBuffer = HsBuffer(isValid: bool, isFragmented: bool, isComplete: bool, data: array?<byte>, dataLen: nat)

  const ZERO_BUFFER := HsBuffer(false, false, false, null, 0)

  /** h is the representation of the slot. */
  ghost predicate Holds(h: HsBuffer, slot: Slot)
    reads h.data
  {
    if h.isValid then
      && h.data != null && h.data.Length == h.dataLen && Layout(h.data[..], h.isFragmented)
      && slot == SlotOf(h.data[..], h.isFragmented, h.isComplete)
    else
      h.data == null && h.dataLen == 0 && !h.isComplete && slot == Empty
  }

  /** Allocate the reassembly buffer and prepare the final header. */
  method FreshBuffer(inMsg: array<byte>, inMsgLen: nat, msgLen: nat, dataLen: nat) returns (buf: array<byte>)
    requires HDR <= inMsgLen <= inMsg.Length && HDR + msgLen <= dataLen
    ensures fresh(buf) && buf.Length == dataLen
    ensures var s := inMsg[..inMsgLen];
      buf[..HDR] == s[..6] + [0, 0, 0] + s[1..4]
    ensures forall i :: HDR <= i < dataLen ==> buf[i] == 0
  {
    buf := new byte[dataLen](_ => 0);
    Copy(inMsg, 0, buf, 0, 6);
    buf[6], buf[7], buf[8] := 0, 0, 0;
    Copy(buf, 1, buf, 9, 3);
    ghost var s := inMsg[..inMsgLen];
    assert buf[9] == s[1] && buf[10] == s[2] && buf[11] == s[3];
    assert buf[..6] == s[..6] && buf[6..9] == [0, 0, 0] && buf[9..12] == s[1..4];
  }

  /** Copy the current fragment into place and mark its bytes in the bitmap at `base`. */
  method PutFragment(
      data: array<byte>, fragmented: bool, inMsg: array<byte>, base: nat, fragOff: nat, fragLen: nat)
    requires data != inMsg && HDR + fragOff + fragLen <= base && HDR + fragLen <= inMsg.Length
    requires data.Length == BufferSize(base - HDR, fragmented)
    modifies data
    ensures forall i :: 0 <= i < base ==>
      data[i] == if HDR + fragOff <= i < HDR + fragOff + fragLen then inMsg[i - fragOff] else old(data[i])
    ensures fragmented ==> forall j: nat :: j < base - HDR ==>
      Bit(data[..], base, j) == (fragOff <= j < fragOff + fragLen || Bit(old(data[..]), base, j))
  {
    ghost var d := data[..];
    Copy(inMsg, HDR, data, HDR + fragOff, fragLen);
    if fragmented {
      ghost var copied := data[..];
      Bitmask.Set(data, base, fragOff, fragLen);
      assert forall j: nat :: j < base - HDR ==> Bit(copied, base, j) == Bit(d, base, j);
    }
  }

  /** Add the current fragment and check whether the message is complete. */
  method Fill(
      data: array<byte>, fragmented: bool, inMsg: array<byte>, inMsgLen: nat,
      msgLen: nat, fragOff: nat, fragLen: nat) returns (complete: bool)
    requires Layout(data[..], fragmented) && data != inMsg && U24At(data[..], 1) == msgLen
    requires HDR <= inMsgLen <= inMsg.Length && HeaderOk(inMsg[..inMsgLen])
    requires TotalLen(inMsg[..inMsgLen]) == msgLen
    requires fragOff == FragOff(inMsg[..inMsgLen]) && fragLen == FragLen(inMsg[..inMsgLen])
    requires fragmented || !IsFragment(inMsg[..inMsgLen])
    modifies data
    ensures Layout(data[..], fragmented)
    ensures SlotOf(data[..], fragmented, complete) ==
      Accept(SlotOf(old(data[..]), fragmented, false), inMsg[..inMsgLen])
  {
    hide Accept, SlotOf, HaveOf;
    ghost var s, d := inMsg[..inMsgLen], data[..];
    PutFragment(data, fragmented, inMsg, HDR + msgLen, fragOff, fragLen);
    AcceptBytes(d, data[..], s, fragmented, false, HDR + msgLen);
    complete := true;
    if fragmented {
      complete := Bitmask.Check(data, HDR + msgLen, msgLen);
    }
  }

  /** Each struct takes the place of the one before it; the last one is zeroed. */
  method ShiftDown(hs: seq<HsBuffer>) returns (r: seq<HsBuffer>)
    requires |hs| == SLOTS
    ensures r == hs[1..] + [ZERO_BUFFER]
  {
    r := hs;
    var offset := 0;
    while offset + 1 < SLOTS
      invariant 0 <= offset < SLOTS && r == hs[1..offset + 1] + hs[offset..]
    {
      r := r[offset := r[offset + 1]];
      offset := offset + 1;
    }
    r := r[offset := ZERO_BUFFER];
  }
}
